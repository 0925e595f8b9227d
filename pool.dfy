/**
 * The pool of corpora (Chinese/PoetryPool.cs): one slot per corpus, and accessors that
 * return a filled slot or load the corpus from the data directory into it.
 */
module Pool {
  import opened Wrappers
  import opened Text
  import opened Json
  import opened Seqs
  import opened Model
  import opened Documents
  import opened Authors
  import opened Partition
  import opened Collection

  /** The corpora of the pool, one static property each. */
  datatype Corpus =
    | PrimateSchool
    | TangPoetry
    | SongPoetry
    | SongLyrics
    | YuanVerses
    | BookOfSongs
    | FourBooksFiveClassics
    | ConfucianAnalects
    | ChuSongs
    | HuajianAnthology
    | SouthernTangPoetry
    | CaocaoAnthology

  /**
   * The data directory as the pool sees it: `GetFileInfo(root, folder, name)` gives the
   * file of that name in the folder or null, and `GetDirectoryInfo(root, folder)` listed
   * with a pattern gives the matching files, or null when there is no such folder.
   */
  datatype Disk = Disk(
    lookup: (string, string) -> FileHandle?,
    listing: (string, string) -> Option<seq<FileHandle>>)

  /** Where an accessor reads its corpus from. */
  datatype Source =
    | Menu(menu: string, pattern: string, output: string) // a manifest, else one generated from the listing
    | Single(name: string)                                // one records file
    | Several(names: seq<string>)                         // several records files, in order

  /**
   * An accessor's constants: the folder, the source, the record handler, and the authors
   * side-file with the slot whose registry receives it.
   */
  datatype Plan = Plan(folder: string, source: Source, handler: Option<Poem -> Poem>, authors: Option<string>, authorsInto: Corpus)

  /** The author the Caocao anthology stamps on every record. */
  const CaoCao := "曹操"

  /** `ele => ele.Author = "曹操"`: the record credited to Cao Cao, everything else kept. */
  function AsCaocao(p: Poem): (r: Poem)
    ensures r.author == Some(CaoCao) && !IsBlank(r.author)
    ensures r.(author := p.author) == p
  {
    assert CaoCao[0] != ' ';
    p.(author := Some(CaoCao))
  }

  /**
   * The constants of every accessor, as written. The Tang generator's output name is the
   * Song manifest's, and the Song accessor merges its authors into the Tang slot.
   */
  function PlanOf(c: Corpus): (p: Plan)
    ensures p.source.Menu? ==> !IsBlank(Some(p.source.output))
    ensures c != SongPoetry ==> p.authors.None? || p.authorsInto == c
    ensures c == SongPoetry ==> p.authors.Some? && p.authorsInto == TangPoetry
    ensures p.handler.Some? <==> c == CaocaoAnthology
  {
    var p := PlanTable(c);
    assert p.source.Menu? ==> p.source.output[0] == 'm';
    p
  }

  /** The accessors' constants, corpus by corpus. */
  function PlanTable(c: Corpus): Plan {
    match c
    case TangPoetry =>
      Plan("json", Menu("menu.tang.json", "poet.tang.*.json", "menu.song.json"), None, Some("authors.tang.json"), TangPoetry)
    case HuajianAnthology =>
      Plan("wudai\\huajianji", Menu("menu.huajianji.json", "huajianji-*.json", "menu.huajianji.json"), None, None, HuajianAnthology)
    case SouthernTangPoetry =>
      Plan("wudai\\nantang", Single("poetrys.json"), None, Some("authors.json"), SouthernTangPoetry)
    case SongPoetry =>
      Plan("json", Menu("menu.song.json", "poet.song.*.json", "menu.song.json"), None, Some("authors.song.json"), TangPoetry)
    case SongLyrics =>
      Plan("ci", Menu("menu.song.json", "ci.song.*.json", "menu.song.json"), None, Some("author.song.json"), SongLyrics)
    case YuanVerses =>
      Plan("yuanqu", Single("yuanqu.json"), None, None, YuanVerses)
    case ConfucianAnalects =>
      Plan("lunyu", Single("lunyu.json"), None, None, ConfucianAnalects)
    case BookOfSongs =>
      Plan("shijing", Single("shijing.json"), None, None, BookOfSongs)
    case ChuSongs =>
      Plan("chuci", Single("chuci.json"), None, None, ChuSongs)
    case FourBooksFiveClassics =>
      Plan("sishuwujing", Several(["daxue.json", "mengzi.json", "zhongyong.json"]), None, None, FourBooksFiveClassics)
    case PrimateSchool =>
      Plan("mengxue", Several(["baijiaxing.json", "sanzijing-new.json", "qianziwen.json", "zhuzijiaxun.json"]), None, None, PrimateSchool)
    case CaocaoAnthology =>
      Plan("caocaoshiji", Single("caocao.json"), Some(AsCaocao), None, CaocaoAnthology)
  }

  /** Where each corpus sits in `LoadOrder`. */
  function Position(c: Corpus): nat {
    match c
    case PrimateSchool => 0
    case TangPoetry => 1
    case SongPoetry => 2
    case SongLyrics => 3
    case YuanVerses => 4
    case BookOfSongs => 5
    case FourBooksFiveClassics => 6
    case ConfucianAnalects => 7
    case ChuSongs => 8
    case HuajianAnthology => 9
    case SouthernTangPoetry => 10
    case CaocaoAnthology => 11
  }

  /** The order in which `LoadFilesAsync` calls the accessors: every corpus once. */
  function LoadOrder(): (r: seq<Corpus>)
    ensures forall c: Corpus :: c in r
    ensures forall i, j :: 0 <= i < j < |r| ==> r[i] != r[j]
  {
    var r := [PrimateSchool, TangPoetry, SongPoetry, SongLyrics, YuanVerses, BookOfSongs,
              FourBooksFiveClassics, ConfucianAnalects, ChuSongs, HuajianAnthology, SouthernTangPoetry, CaocaoAnthology];
    assert forall c: Corpus :: Position(c) < |r| && r[Position(c)] == c;
    assert forall c: Corpus :: c in r by {
      forall c: Corpus
        ensures c in r
      {
        assert r[Position(c)] == c;
      }
    }
    r
  }

  predicate Found(f: FileHandle?) {
    f != null && f.Exists()
  }

  /** The generic JSON array view of a file that exists. */
  function Tree(f: FileHandle?): Decoded<seq<Json>>
    requires Found(f)
  {
    f.content.value.asTree
  }

  /** Every listed file that exists parses. */
  predicate AllParse(files: seq<FileHandle>) {
    forall i :: 0 <= i < |files| && files[i].Exists() ==> ParseFile(files[i]).Ok?
  }

  /** No listed file fails to parse with anything but a `JsonException`. */
  predicate OnlyJsonFailures(files: seq<FileHandle>) {
    forall i :: 0 <= i < |files| && files[i].Exists() && ParseFile(files[i]).Thrown? ==> ParseFile(files[i]).error == JsonException
  }

  /** The manifest a menu accessor tries first. */
  function MenuFile(disk: Disk, p: Plan): FileHandle?
    requires p.source.Menu?
  {
    disk.lookup(p.folder, p.source.menu)
  }

  /** The files a menu accessor generates its manifest from. */
  function MenuListing(disk: Disk, p: Plan): Option<seq<FileHandle>>
    requires p.source.Menu?
  {
    disk.listing(p.folder, p.source.pattern)
  }

  /** The authors side-file of an accessor, null when it has none. */
  function SideFile(disk: Disk, p: Plan): FileHandle? {
    if p.authors.Some? then disk.lookup(p.folder, p.authors.value) else null
  }

  /** `menu ?? generate` yields a collection: the manifest decodes, or every listed file parses. */
  predicate MenuBuilds(disk: Disk, p: Plan)
    requires p.source.Menu?
  {
    var m, l := MenuFile(disk, p), MenuListing(disk, p);
    (Found(m) && Tree(m).Value?) || (!Found(m) && l.Some? && AllParse(l.value))
  }

  /** `menu ?? generate` throws a `JsonException`. */
  predicate MenuJsonFails(disk: Disk, p: Plan)
    requires p.source.Menu?
  {
    var m, l := MenuFile(disk, p), MenuListing(disk, p);
    (Found(m) && Tree(m).Malformed?) || (!Found(m) && l.Some? && !AllParse(l.value) && OnlyJsonFailures(l.value))
  }

  predicate IsEmpty(x: PoetryCollection?)
    reads x
  {
    x != null && x.col == [] && x.authors == []
  }

  /** The side-file step fails: its JSON array view is not an array. */
  function SideFileError(f: FileHandle?): Option<Exception> {
    if !Found(f) then None
    else match Tree(f)
      case Malformed => Some(JsonException)
      case Null => Some(NullReferenceException)
      case Value(_) => None
  }

  /**
   * `ParseFileMenuAsync(...) ?? GenerateAsync(...)`: the manifest when it exists, else a
   * menu generated from the listing and written under the output name.
   */
  method BuildMenu(disk: Disk, p: Plan) returns (r: Outcome<PoetryCollection?>, wrote: bool)
    requires p.source.Menu? && !IsBlank(Some(p.source.output))
    ensures MenuJsonFails(disk, p) ==> r == Thrown(JsonException)
    ensures Found(MenuFile(disk, p)) && Tree(MenuFile(disk, p)).Null? ==> r == Thrown(NullReferenceException)
    ensures MenuBuilds(disk, p) ==> r.Ok? && r.value != null
    ensures MenuBuilds(disk, p) && Found(MenuFile(disk, p)) ==> |r.value.col| == |Tree(MenuFile(disk, p)).value|
    ensures MenuBuilds(disk, p) && !Found(MenuFile(disk, p)) ==> FilesOf(r.value.col) == Existing(MenuListing(disk, p).value)
    ensures !Found(MenuFile(disk, p)) && MenuListing(disk, p).None? ==> r == Ok(null)
    ensures wrote <==> !Found(MenuFile(disk, p)) && MenuListing(disk, p).Some? && AllParse(MenuListing(disk, p).value)
    ensures r.Ok? && r.value != null ==> fresh(r.value) && forall i :: 0 <= i < |r.value.authors| ==> fresh(r.value.authors[i])
  {
    var m := MenuFile(disk, p);
    r := PoetryCollection.Parse(m);
    wrote := false;
    if r.Thrown? || r.value != null {
      return;
    }
    var written: Option<seq<map<string, Json>>>;
    r, written := PoetryCollection.Generate(MenuListing(disk, p), Some(p.source.output));
    wrote := written.Some?;
    if r.Thrown? && !Found(m) && OnlyJsonFailures(MenuListing(disk, p).value) {
      var files := MenuListing(disk, p).value;
      var k :| 0 <= k < |files| && files[k].Exists() && ParseFile(files[k]) == Thrown(r.error);
    }
  }

  /** `target.LoadAuthorsFileAsync(file)`: a null target throws before the file is read. */
  method MergeSideFile(target: PoetryCollection?, f: FileHandle?) returns (e: Option<Exception>)
    modifies target, if target != null then target.authors else []
    ensures target == null ==> e == Some(NullReferenceException)
    ensures target != null ==> e == SideFileError(f) && target.col == old(target.col)
    ensures target != null ==> |old(target.authors)| <= |target.authors| && target.authors[..|old(target.authors)|] == old(target.authors)
    ensures target != null ==> forall i :: |old(target.authors)| <= i < |target.authors| ==> fresh(target.authors[i])
  {
    if target == null {
      return Some(NullReferenceException);
    }
    var o := target.LoadAuthorsFile(f);
    e := if o.Thrown? then Some(o.error) else None;
  }

  /** The files that exist among those looked up. */
  function FoundIn(files: seq<FileHandle?>): set<FileHandle?> {
    set i | 0 <= i < |files| && Found(files[i]) :: files[i]
  }

  /** The files a multi-file accessor looks up, in order. */
  function Lookups(disk: Disk, p: Plan): (r: seq<FileHandle?>)
    requires p.source.Several?
    ensures |r| == |p.source.names| && forall i :: 0 <= i < |r| ==> r[i] == disk.lookup(p.folder, p.source.names[i])
  {
    Map((name: string) => disk.lookup(p.folder, name), p.source.names)
  }

  /** Some file that exists among the first `n` fails to parse. */
  predicate SomeFails(files: seq<FileHandle?>, n: nat)
    requires n <= |files|
  {
    exists i :: 0 <= i < n && Found(files[i]) && ParseFile(files[i]).Thrown?
  }

  /** A partition a loader with `cache` set leaves: an existing file whose handled records are cached. */
  predicate CachedLoad(e: PoetryFileInfo?, handler: Option<Poem -> Poem>)
    reads e
  {
    e != null && Found(e.file) && ParseFile(e.file).Ok? && e.cache == Some(Handled(handler, ParseFile(e.file).value))
  }

  /** Replacing the entry of a file keeps files distinct and the file set grows by that file. */
  lemma Replaced(before: seq<PoetryFileInfo?>, info: PoetryFileInfo)
    requires forall j :: 0 <= j < |before| ==> before[j] != null
    requires FilesDistinct(before) && info.file != null
    ensures FilesDistinct(RemoveFile(before, info.file).0 + [info])
    ensures FilesOf(RemoveFile(before, info.file).0 + [info]) == FilesOf(before) + {info.file}
  {
    var rest := RemoveFile(before, info.file).0;
    AddKeepsFilesDistinct(before, info);
    RemoveFileFiles(before, info.file);
    assert FilesOf(rest + [info]) == FilesOf(rest) + {info.file};
  }

  /**
   * `LoadSingleFile(folder, fileName, handler)`: a new collection with the one file loaded
   * and cached. A `JsonException` is swallowed and the collection returned as it stands.
   */
  method LoadSingleFile(f: FileHandle?, handler: Option<Poem -> Poem>) returns (r: Outcome<PoetryCollection>)
    ensures r.Thrown? <==> Found(f) && ParseFile(f).Thrown? && ParseFile(f).error != JsonException
    ensures r.Thrown? ==> r.error == ParseFile(f).error
    ensures r.Ok? ==> fresh(r.value) && forall i :: 0 <= i < |r.value.authors| ==> fresh(r.value.authors[i])
    ensures r.Ok? && !(Found(f) && ParseFile(f).Ok?) ==> r.value.col == [] && r.value.authors == []
    ensures Found(f) && ParseFile(f).Ok? ==>
              r.Ok? && |r.value.col| == 1 && r.value.col[0] != null && r.value.col[0].file == f && CachedLoad(r.value.col[0], handler)
  {
    var c := new PoetryCollection();
    assert RemoveFile([], f).0 == [];
    var o := c.LoadFile(f, handler, true);
    if o.Thrown? && o.error != JsonException {
      return Thrown(o.error);
    }
    return Ok(c);
  }

  /**
   * `LoadSingleFile(folder, fileNames, handler)`: a new collection with every file loaded
   * and cached in turn; any exception ends the load and propagates.
   */
  method LoadSeveralFiles(files: seq<FileHandle?>, handler: Option<Poem -> Poem>) returns (r: Outcome<PoetryCollection>)
    ensures r.Thrown? <==> SomeFails(files, |files|)
    ensures r.Thrown? ==> exists i :: 0 <= i < |files| && Found(files[i]) && ParseFile(files[i]) == Thrown(r.error)
    ensures r.Ok? ==> fresh(r.value) && forall i :: 0 <= i < |r.value.authors| ==> fresh(r.value.authors[i])
    ensures r.Ok? ==> FilesDistinct(r.value.col) && FilesOf(r.value.col) == FoundIn(files)
    ensures r.Ok? ==> forall j :: 0 <= j < |r.value.col| ==> CachedLoad(r.value.col[j], handler)
  {
    var c := new PoetryCollection();
    var k := 0;
    while k < |files|
      invariant 0 <= k <= |files|
      invariant fresh(c) && forall i :: 0 <= i < |c.authors| ==> fresh(c.authors[i])
      invariant FilesDistinct(c.col) && FilesOf(c.col) == FoundIn(files[..k])
      invariant forall j :: 0 <= j < |c.col| ==> CachedLoad(c.col[j], handler)
      invariant !SomeFails(files, k)
    {
      var o := LoadNext(c, files, k, handler);
      if o.Thrown? {
        return Thrown(o.error);
      }
      k := k + 1;
    }
    assert files[..k] == files;
    return Ok(c);
  }

  /** One file of the multi-file loader. */
  method LoadNext(c: PoetryCollection, files: seq<FileHandle?>, k: nat, handler: Option<Poem -> Poem>) returns (o: Outcome<PoetryFileInfo?>)
    requires k < |files|
    requires FilesDistinct(c.col) && FilesOf(c.col) == FoundIn(files[..k])
    requires forall j :: 0 <= j < |c.col| ==> CachedLoad(c.col[j], handler)
    modifies c
    ensures o.Thrown? <==> Found(files[k]) && ParseFile(files[k]).Thrown?
    ensures o.Thrown? ==> o.error == ParseFile(files[k]).error
    ensures o.Ok? ==> FilesDistinct(c.col) && FilesOf(c.col) == FoundIn(files[..k + 1])
    ensures o.Ok? ==> forall j :: 0 <= j < |c.col| ==> CachedLoad(c.col[j], handler)
    ensures forall i :: 0 <= i < |c.authors| ==> c.authors[i] in old(c.authors) || fresh(c.authors[i])
  {
    ghost var before := c.col;
    FoundInStep(files, k);
    assert forall j :: 0 <= j < |before| ==> before[j] != null;
    o := c.LoadFile(files[k], handler, true);
    if Found(files[k]) && o.Ok? {
      Replaced(before, o.value);
    }
  }

  /** One more file looked up adds it to the found files when it exists. */
  lemma FoundInStep(files: seq<FileHandle?>, k: nat)
    requires k < |files|
    ensures FoundIn(files[..k + 1]) == FoundIn(files[..k]) + (if Found(files[k]) then {files[k]} else {})
  {
    assert files[..k + 1] == files[..k] + [files[k]];
  }

  /** `Where(ele => ele != null)` */
  function Somes<T(!new)>(s: seq<Option<T>>): (r: seq<T>)
    ensures forall x :: x in r <==> Some(x) in s
  {
    if s == [] then []
    else
      var init := s[..|s| - 1];
      assert forall y :: y in s <==> y in init || y == s[|s| - 1];
      Somes(init) + (if s[|s| - 1].Some? then [s[|s| - 1].value] else [])
  }

  /** The three hundred Tang poems: `Where(ele => ele?.Content != null).SelectMany(ele => ele.Content)`. */
  function GroupedRecords(groups: seq<Option<seq<Poem>>>): seq<Poem> {
    Flatten(Somes(groups))
  }

  /** A poem is among the grouped records exactly when some group present holds it. */
  lemma GroupedRecordsMembers(groups: seq<Option<seq<Poem>>>, p: Poem)
    ensures p in GroupedRecords(groups) <==> exists i :: 0 <= i < |groups| && groups[i].Some? && p in groups[i].value
  {
    var present := Somes(groups);
    FlattenMembership(present, p);
    if p in GroupedRecords(groups) {
      var k :| 0 <= k < |present| && p in present[k];
      assert Some(present[k]) in groups;
    }
    if exists i :: 0 <= i < |groups| && groups[i].Some? && p in groups[i].value {
      var i :| 0 <= i < |groups| && groups[i].Some? && p in groups[i].value;
      assert groups[i].value in present;
    }
  }

  /**
   * One dizigui record: the title becomes the container title and the chapter joined by
   * a middle dot, each null written as empty, the chapter is cleared, then `Reorganize`.
   */
  function Chaptered(title: Option<string>, p: Poem): Poem {
    Reorganized(p.(title := Some(Dotted(title.GetOr(""), p.chapter.GetOr(""))), chapter := None))
  }

  /**
   * Without a section or a tune name, a rewritten record's full title is the trimmed
   * container title and chapter; only the title, chapter and paragraphs change, and the
   * record is already reorganized.
   */
  lemma ChapteredRecord(title: Option<string>, p: Poem)
    ensures Chaptered(title, p).chapter.None?
    ensures Chaptered(title, p).(title := p.title, chapter := p.chapter, paragraphs := p.paragraphs) == p
    ensures Reorganized(Chaptered(title, p)) == Chaptered(title, p)
    ensures p.section.None? && Rhythmic(p).None? ==>
              FullTitle(Chaptered(title, p)) == Some(Trim(Dotted(title.GetOr(""), p.chapter.GetOr(""))))
  {
    var q := p.(title := Some(Dotted(title.GetOr(""), p.chapter.GetOr(""))), chapter := None);
    ReorganizeIdempotent(q);
    if p.section.None? && Rhythmic(p).None? {
      assert Rhythmic(q) == Rhythmic(p);
      ReorganizeTitle(q);
      FullTitleWithoutPrefix(Chaptered(title, p));
    }
  }

  /** The one file a single-file accessor reads. */
  function SingleFile(disk: Disk, p: Plan): FileHandle?
    requires p.source.Single?
  {
    disk.lookup(p.folder, p.source.name)
  }

  /** The single file exists and fails to parse with something other than a JSON error. */
  predicate SingleFails(disk: Disk, p: Plan)
    requires p.source.Single?
  {
    Found(SingleFile(disk, p)) && ParseFile(SingleFile(disk, p)).Thrown? && ParseFile(SingleFile(disk, p)).error != JsonException
  }

  /** The extra files of the primers' folder. */
  const TangPoems300 := "tangshisanbaishou.json"
  const Dizigui := "dizigui.json"

  /**
   * The swallowing block stops at the three hundred poems: the file is named but missing
   * (opening it throws an I/O error), or it is not JSON of the expected shape.
   */
  predicate ExtrasAborted(t: FileHandle?) {
    t != null && (!t.Exists() || t.content.value.asGroups.Malformed?)
  }

  /** The three hundred poems file decodes to a container with content. */
  predicate GroupsLoad(t: FileHandle?) {
    Found(t) && t.content.value.asGroups.Value? && t.content.value.asGroups.value.content.Some?
  }

  /** The dizigui file decodes to a container with content. */
  predicate TitledLoads(d: FileHandle?) {
    Found(d) && d.content.value.asTitled.Value? && d.content.value.asTitled.value.content.Some?
  }

  /** The dizigui partition is added: the block went past the three hundred poems and dizigui decodes. */
  predicate DiziguiAdded(disk: Disk, p: Plan) {
    !ExtrasAborted(disk.lookup(p.folder, TangPoems300)) && TitledLoads(disk.lookup(p.folder, Dizigui))
  }

  /** The dizigui records: every record present, rewritten under the container title. */
  function DiziguiRecords(v: Titled<seq<Option<Poem>>>): seq<Poem>
    requires v.content.Some?
  {
    Map((p: Poem) => Chaptered(v.title, p), Somes(v.content.value))
  }

  /** The partition of the three hundred poems: the file, no loader, the flattened groups cached. */
  predicate TangPoemsEntry(e: PoetryFileInfo, t: FileHandle?)
    requires GroupsLoad(t)
    reads e
  {
    e.file == t && e.load.None? && e.cache == Some(GroupedRecords(t.content.value.asGroups.value.content.value))
  }

  /** The partition added for dizigui: the file, no loader, the rewritten records cached. */
  predicate DiziguiEntry(e: PoetryFileInfo?, d: FileHandle?)
    requires TitledLoads(d)
    reads e
  {
    e != null && e.file == d && e.load.None? && e.cache == Some(DiziguiRecords(d.content.value.asTitled.value))
  }

  /** The `Select` of the dizigui loader, one `PoetryModel` at a time. */
  method RewriteChapters(title: Option<string>, items: seq<Option<Poem>>) returns (out: seq<Poem>)
    ensures out == DiziguiRecords(Titled(title, Some(items)))
  {
    out := [];
    var k := 0;
    while k < |items|
      invariant 0 <= k <= |items|
      invariant |out| == |Somes(items[..k])|
      invariant forall i :: 0 <= i < |out| ==> out[i] == Chaptered(title, Somes(items[..k])[i])
    {
      assert items[..k + 1][..k] == items[..k];
      if items[k].Some? {
        var ele := new PoetryModel(items[k].value);
        ele.title := Some(Dotted(title.GetOr(""), ele.chapter.GetOr("")));
        ele.chapter := None;
        ele.Reorganize();
        out := out + [ele.Value()];
      }
      k := k + 1;
    }
    assert items[..k] == items;
  }

  /**
   * The second step of the swallowing block: when the dizigui file decodes to a container
   * with content, its rewritten records are added to the primers as a new partition.
   */
  method LoadDizigui(col: PoetryCollection, d: FileHandle?)
    requires forall j :: 0 <= j < |col.col| ==> col.col[j] != null
    modifies col
    ensures col.authors == old(col.authors)
    ensures !TitledLoads(d) ==> col.col == old(col.col)
    ensures TitledLoads(d) ==>
              col.col != [] && fresh(col.col[|col.col| - 1]) && DiziguiEntry(col.col[|col.col| - 1], d)
              && col.col == RemoveFile(old(col.col), d).0 + [col.col[|col.col| - 1]]
  {
    if d == null || !d.Exists() {
      return;
    }
    var dzg := d.content.value.asTitled;
    if dzg.Value? && dzg.value.content.Some? {
      var recs := RewriteChapters(dzg.value.title, dzg.value.content.value);
      var info := new PoetryFileInfo.FromRecords(d, Some(recs));
      var thrown := col.Add(info);
    }
  }

  /** Two slot maps that differ at most at `c` agree on every other corpus. */
  lemma Untouched(a: map<Corpus, PoetryCollection>, b: map<Corpus, PoetryCollection>, c: Corpus)
    requires a - {c} == b - {c}
    ensures forall d :: d != c ==> (d in a <==> d in b) && (d in a ==> a[d] == b[d])
  {
    forall d | d != c
      ensures (d in a <==> d in b) && (d in a ==> a[d] == b[d])
    {
      assert d in a <==> d in a - {c};
      assert d in b <==> d in b - {c};
      if d in a {
        assert a[d] == (a - {c})[d];
      }
    }
  }

  class PoetryPool {
    /** The filled slots; a corpus without an entry has a null slot. */
    var slots: map<Corpus, PoetryCollection>
    /** `tangPoetry300`, the partition of the three hundred Tang poems. */
    var tangPoetry300: PoetryFileInfo?

    constructor ()
      ensures slots == map[] && tangPoetry300 == null
    {
      slots := map[];
      tangPoetry300 := null;
    }

    /** The collection another corpus's slot lends to `c`'s authors side-file. */
    function Lender(c: Corpus, p: Plan): PoetryCollection?
      reads this
    {
      if p.authors.Some? && p.authorsInto != c && p.authorsInto in slots then slots[p.authorsInto] else null
    }

    /** The registry of the lender, whose authors the side-file may update. */
    function LenderAuthors(c: Corpus, p: Plan): seq<AuthorInfo>
      reads this, Lender(c, p)
    {
      if Lender(c, p) != null then Lender(c, p).authors else []
    }

    /** Whether an accessor call loads its corpus rather than return the filled slot. */
    predicate Reloads(c: Corpus, force: bool)
      reads this
    {
      !(c in slots && !force)
    }

    /** The slot that receives `c`'s authors side-file is filled, or `c` has none. */
    predicate HasReceiver(c: Corpus, p: Plan)
      reads this
    {
      p.authors.None? || p.authorsInto == c || p.authorsInto in slots
    }

    /** `return Slot = new PoetryCollection()` */
    method Reset(c: Corpus) returns (r: Outcome<PoetryCollection?>)
      modifies this
      ensures r.Ok? && r.value != null && fresh(r.value) && IsEmpty(r.value)
      ensures slots == old(slots)[c := r.value] && tangPoetry300 == old(tangPoetry300)
    {
      var empty := new PoetryCollection();
      slots := slots[c := empty];
      return Ok(empty);
    }

    /** The side-file step has a collection to merge into. */
    predicate Receives(c: Corpus, p: Plan, built: PoetryCollection?)
      reads this
    {
      p.authors.None? || (p.authorsInto == c && built != null) || (p.authorsInto != c && p.authorsInto in slots)
    }

    /**
     * The manifest accessors (`LoadTangPoetryAsync`, `LoadSongPoetryAsync`,
     * `LoadSongLyricsAsync`, `LoadHuajianAnthologyAsync`): the filled slot unless forced;
     * otherwise the manifest or a generated one, stored in the slot, then the authors
     * side-file merged into the receiving slot. A `JsonException` on the way leaves a
     * fresh empty collection in the slot.
     */
    method LoadMenu(disk: Disk, c: Corpus, p: Plan, force: bool) returns (r: Outcome<PoetryCollection?>, written: Option<(string, string)>)
      requires p.source.Menu? && !IsBlank(Some(p.source.output))
      modifies this, Lender(c, p), LenderAuthors(c, p)
      ensures tangPoetry300 == old(tangPoetry300) && slots - {c} == old(slots) - {c}
      ensures c in old(slots) && !force ==> r == Ok(old(slots)[c]) && slots == old(slots) && written.None?
      ensures r.Thrown? ==> r.error != JsonException
      ensures r.Ok? ==> if r.value == null then c !in slots else c in slots && slots[c] == r.value
      ensures c in slots && !(c in old(slots) && slots[c] == old(slots)[c]) ==>
                fresh(slots[c]) && forall i :: 0 <= i < |slots[c].authors| ==> fresh(slots[c].authors[i])
      ensures r.Ok? && r.value == null ==> p.authors.None? || p.authorsInto != c
      ensures written.Some? ==> written.value == (p.folder, p.source.output)
      ensures old(Reloads(c, force)) ==>
                (written.Some? <==> !Found(MenuFile(disk, p)) && MenuListing(disk, p).Some? && AllParse(MenuListing(disk, p).value))
      ensures old(Reloads(c, force)) && MenuJsonFails(disk, p) ==> r.Ok? && fresh(r.value) && IsEmpty(r.value)
      ensures old(Reloads(c, force)) && Found(MenuFile(disk, p)) && Tree(MenuFile(disk, p)).Null? ==>
                r == Thrown(NullReferenceException) && slots == old(slots)
      ensures old(Reloads(c, force)) && MenuBuilds(disk, p) && !old(HasReceiver(c, p)) ==> r == Thrown(NullReferenceException)
      ensures old(Reloads(c, force)) && MenuBuilds(disk, p) && old(HasReceiver(c, p)) && SideFileError(SideFile(disk, p)) == Some(JsonException) ==>
                r.Ok? && fresh(r.value) && IsEmpty(r.value)
      ensures old(Reloads(c, force)) && MenuBuilds(disk, p) && old(HasReceiver(c, p)) && SideFileError(SideFile(disk, p)) == Some(NullReferenceException) ==>
                r == Thrown(NullReferenceException) && c in slots && fresh(slots[c])
      ensures old(Reloads(c, force)) && MenuBuilds(disk, p) && old(HasReceiver(c, p)) && SideFileError(SideFile(disk, p)).None? ==>
                r.Ok? && r.value != null && fresh(r.value)
                && (Found(MenuFile(disk, p)) ==> |r.value.col| == |Tree(MenuFile(disk, p)).value|)
                && (!Found(MenuFile(disk, p)) ==> FilesOf(r.value.col) == Existing(MenuListing(disk, p).value))
      ensures old(Reloads(c, force)) && !Found(MenuFile(disk, p)) && MenuListing(disk, p).None? ==>
                (p.authors.None? ==> r == Ok(null) && c !in slots)
                && (p.authors.Some? && p.authorsInto == c ==> r == Thrown(NullReferenceException) && c !in slots)
    {
      if c in slots && !force {
        return Ok(slots[c]), None;
      }
      r, written := RebuildMenu(disk, c, p);
    }

    /** The loading half of a manifest accessor. */
    method RebuildMenu(disk: Disk, c: Corpus, p: Plan) returns (r: Outcome<PoetryCollection?>, written: Option<(string, string)>)
      requires p.source.Menu? && !IsBlank(Some(p.source.output))
      modifies this, Lender(c, p), LenderAuthors(c, p)
      ensures tangPoetry300 == old(tangPoetry300) && slots - {c} == old(slots) - {c}
      ensures r.Thrown? ==> r.error != JsonException
      ensures r.Ok? && r.value != null ==> fresh(r.value)
      ensures r.Ok? ==> if r.value == null then c !in slots else c in slots && slots[c] == r.value
      ensures c in slots && !(c in old(slots) && slots[c] == old(slots)[c]) ==>
                fresh(slots[c]) && forall i :: 0 <= i < |slots[c].authors| ==> fresh(slots[c].authors[i])
      ensures r.Ok? && r.value == null ==> p.authors.None? || p.authorsInto != c
      ensures written.Some? ==> written.value == (p.folder, p.source.output)
      ensures written.Some? <==> !Found(MenuFile(disk, p)) && MenuListing(disk, p).Some? && AllParse(MenuListing(disk, p).value)
      ensures MenuJsonFails(disk, p) ==> r.Ok? && IsEmpty(r.value)
      ensures Found(MenuFile(disk, p)) && Tree(MenuFile(disk, p)).Null? ==> r == Thrown(NullReferenceException) && slots == old(slots)
      ensures MenuBuilds(disk, p) && !old(HasReceiver(c, p)) ==> r == Thrown(NullReferenceException)
      ensures MenuBuilds(disk, p) && old(HasReceiver(c, p)) && SideFileError(SideFile(disk, p)) == Some(JsonException) ==>
                r.Ok? && IsEmpty(r.value)
      ensures MenuBuilds(disk, p) && old(HasReceiver(c, p)) && SideFileError(SideFile(disk, p)) == Some(NullReferenceException) ==>
                r == Thrown(NullReferenceException) && c in slots && fresh(slots[c])
      ensures MenuBuilds(disk, p) && old(HasReceiver(c, p)) && SideFileError(SideFile(disk, p)).None? ==>
                r.Ok? && r.value != null
                && (Found(MenuFile(disk, p)) ==> |r.value.col| == |Tree(MenuFile(disk, p)).value|)
                && (!Found(MenuFile(disk, p)) ==> FilesOf(r.value.col) == Existing(MenuListing(disk, p).value))
      ensures !Found(MenuFile(disk, p)) && MenuListing(disk, p).None? ==>
                (p.authors.None? ==> r == Ok(null) && c !in slots)
                && (p.authors.Some? && p.authorsInto == c ==> r == Thrown(NullReferenceException) && c !in slots)
    {
      var built, wrote := BuildMenu(disk, p);
      written := if wrote then Some((p.folder, p.source.output)) else None;
      if built.Thrown? {
        if built.error == JsonException {
          r := Reset(c);
        } else {
          r := built;
        }
        return;
      }
      r := MenuBuilt(disk, c, p, built.value);
    }

    /** The rest of a manifest accessor once `menu ?? generate` has yielded `built`. */
    method MenuBuilt(disk: Disk, c: Corpus, p: Plan, built: PoetryCollection?) returns (r: Outcome<PoetryCollection?>)
      requires p.source.Menu?
      requires MenuBuilds(disk, p) ==> built != null
      requires !Found(MenuFile(disk, p)) && MenuListing(disk, p).None? ==> built == null
      modifies this, built, (if built != null then built.authors else []), Lender(c, p), LenderAuthors(c, p)
      ensures tangPoetry300 == old(tangPoetry300) && slots - {c} == old(slots) - {c}
      ensures r.Thrown? ==> r.error == NullReferenceException
      ensures r.Ok? ==> if r.value == null then c !in slots else c in slots && slots[c] == r.value
      ensures c in slots ==> slots[c] == built || (fresh(slots[c]) && IsEmpty(slots[c]))
      ensures r.Ok? && r.value != null ==> r.value == built || (fresh(r.value) && IsEmpty(r.value))
      ensures r.Ok? && r.value == null ==> p.authors.None? || p.authorsInto != c
      ensures MenuBuilds(disk, p) && !old(HasReceiver(c, p)) ==> r == Thrown(NullReferenceException)
      ensures MenuBuilds(disk, p) && old(HasReceiver(c, p)) && SideFileError(SideFile(disk, p)) == Some(JsonException) ==>
                r.Ok? && fresh(r.value) && IsEmpty(r.value)
      ensures MenuBuilds(disk, p) && old(HasReceiver(c, p)) && SideFileError(SideFile(disk, p)) == Some(NullReferenceException) ==>
                r == Thrown(NullReferenceException) && c in slots && slots[c] == built
      ensures MenuBuilds(disk, p) && old(HasReceiver(c, p)) && SideFileError(SideFile(disk, p)).None? ==> r == Ok(built)
      ensures !Found(MenuFile(disk, p)) && MenuListing(disk, p).None? ==>
                (p.authors.None? ==> r == Ok(null) && c !in slots)
                && (p.authors.Some? && p.authorsInto == c ==> r == Thrown(NullReferenceException) && c !in slots)
      ensures built != null ==> built.col == old(built.col)
      ensures built != null ==> forall i :: 0 <= i < |built.authors| ==> built.authors[i] in old(built.authors) || fresh(built.authors[i])
    {
      ghost var before := if built != null then built.authors else [];
      r := FinishMenu(c, p, built, SideFile(disk, p));
      if built != null {
        forall i | 0 <= i < |built.authors|
          ensures built.authors[i] in before || fresh(built.authors[i])
        {
          if i < |before| {
            assert built.authors[i] == before[i];
          }
        }
      }
    }

    /** `Slot = built; receiver.LoadAuthorsFileAsync(file); return Slot;` */
    method FinishMenu(c: Corpus, p: Plan, built: PoetryCollection?, f: FileHandle?) returns (r: Outcome<PoetryCollection?>)
      modifies this, built, (if built != null then built.authors else []), Lender(c, p), LenderAuthors(c, p)
      ensures tangPoetry300 == old(tangPoetry300) && slots - {c} == old(slots) - {c}
      ensures r.Thrown? ==> r.error == NullReferenceException && (if built == null then c !in slots else c in slots && slots[c] == built)
      ensures r.Ok? ==> if r.value == null then c !in slots else c in slots && slots[c] == r.value
      ensures r.Ok? && r.value == null ==> p.authors.None? || p.authorsInto != c
      ensures !old(Receives(c, p, built)) ==> r == Thrown(NullReferenceException)
      ensures old(Receives(c, p, built)) && p.authors.Some? && SideFileError(f) == Some(JsonException) ==>
                r.Ok? && fresh(r.value) && IsEmpty(r.value)
      ensures old(Receives(c, p, built)) && p.authors.Some? && SideFileError(f) == Some(NullReferenceException) ==>
                r == Thrown(NullReferenceException)
      ensures old(Receives(c, p, built)) && (p.authors.None? || SideFileError(f).None?) ==> r == Ok(built)
      ensures c in slots ==> slots[c] == built || (fresh(slots[c]) && IsEmpty(slots[c]))
      ensures built != null ==> built.col == old(built.col)
      ensures built != null ==> |old(built.authors)| <= |built.authors| && built.authors[..|old(built.authors)|] == old(built.authors)
      ensures built != null ==> forall i :: |old(built.authors)| <= i < |built.authors| ==> fresh(built.authors[i])
    {
      Store(c, built);
      if p.authors.Some? {
        var target := if p.authorsInto in slots then slots[p.authorsInto] else null;
        var e := MergeSideFile(target, f);
        if e == Some(JsonException) {
          r := Reset(c);
          return;
        }
        if e.Some? {
          return Thrown(e.value);
        }
      }
      return Ok(built);
    }

    /**
     * The single-file accessors (`LoadSouthernTangPoetryAsync`, `LoadYuanVersesAsync`,
     * `LoadConfucianAnalectsAsync`, `LoadBookOfSongsAsync`, `LoadChuSongsAsync`,
     * `LoadCaocaoAnthologyAsync`): the filled slot unless forced; otherwise the collection
     * of the one file, stored in the slot, then the authors side-file if there is one.
     * The side-file step catches nothing.
     */
    method LoadSingle(disk: Disk, c: Corpus, p: Plan, force: bool) returns (r: Outcome<PoetryCollection?>)
      requires p.source.Single? && (p.authors.Some? ==> p.authorsInto == c)
      modifies this
      ensures tangPoetry300 == old(tangPoetry300) && slots - {c} == old(slots) - {c}
      ensures c in old(slots) && !force ==> r == Ok(old(slots)[c]) && slots == old(slots)
      ensures c in slots && !(c in old(slots) && slots[c] == old(slots)[c]) ==>
                fresh(slots[c]) && forall i :: 0 <= i < |slots[c].authors| ==> fresh(slots[c].authors[i])
      ensures r.Ok? ==> c in slots && slots[c] == r.value
      ensures old(Reloads(c, force)) && SingleFails(disk, p) ==>
                r == Thrown(ParseFile(SingleFile(disk, p)).error) && slots == old(slots)
      ensures old(Reloads(c, force)) && !SingleFails(disk, p) ==>
                c in slots && fresh(slots[c])
                && (r.Thrown? <==> SideFileError(SideFile(disk, p)).Some?)
                && (r.Thrown? ==> r.error == SideFileError(SideFile(disk, p)).value)
      ensures old(Reloads(c, force)) && Found(SingleFile(disk, p)) && ParseFile(SingleFile(disk, p)).Ok? ==>
                c in slots && |slots[c].col| == 1 && slots[c].col[0] != null && slots[c].col[0].file == SingleFile(disk, p)
                && CachedLoad(slots[c].col[0], p.handler)
      ensures old(Reloads(c, force)) && !SingleFails(disk, p) && !(Found(SingleFile(disk, p)) && ParseFile(SingleFile(disk, p)).Ok?) ==>
                c in slots && slots[c].col == []
    {
      if c in slots && !force {
        return Ok(slots[c]);
      }
      var o := LoadSingleFile(disk.lookup(p.folder, p.source.name), p.handler);
      if o.Thrown? {
        return Thrown(o.error);
      }
      var col := o.value;
      slots := slots[c := col];
      if p.authors.Some? {
        var e := MergeSideFile(col, disk.lookup(p.folder, p.authors.value));
        if e.Some? {
          return Thrown(e.value);
        }
      }
      return Ok(col);
    }

    /**
     * `LoadFourBooksFiveClassicsAsync`: the filled slot unless forced; otherwise the
     * collection of the files in order, stored in the slot. Nothing is caught: a failing
     * file leaves the slot as it was.
     */
    method LoadSeveral(disk: Disk, c: Corpus, p: Plan, force: bool) returns (r: Outcome<PoetryCollection?>)
      requires p.source.Several?
      modifies this
      ensures tangPoetry300 == old(tangPoetry300) && slots - {c} == old(slots) - {c}
      ensures c in old(slots) && !force ==> r == Ok(old(slots)[c]) && slots == old(slots)
      ensures c in slots && !(c in old(slots) && slots[c] == old(slots)[c]) ==>
                fresh(slots[c]) && forall i :: 0 <= i < |slots[c].authors| ==> fresh(slots[c].authors[i])
      ensures r.Ok? ==> c in slots && slots[c] == r.value
      ensures old(Reloads(c, force)) ==> (r.Thrown? <==> SomeFails(Lookups(disk, p), |p.source.names|))
      ensures old(Reloads(c, force)) && r.Thrown? ==> slots == old(slots)
      ensures old(Reloads(c, force)) && r.Ok? ==>
                fresh(r.value) && FilesDistinct(r.value.col) && FilesOf(r.value.col) == FoundIn(Lookups(disk, p))
                && forall j :: 0 <= j < |r.value.col| ==> CachedLoad(r.value.col[j], p.handler)
    {
      if c in slots && !force {
        return Ok(slots[c]);
      }
      var o := LoadSeveralFiles(Lookups(disk, p), p.handler);
      if o.Thrown? {
        return Thrown(o.error);
      }
      slots := slots[c := o.value];
      return Ok(o.value);
    }

    /**
     * `LoadPrimateSchoolAsync`: the multi-file load of the primers, stored in the slot;
     * then, with I/O and JSON failures swallowed, the three hundred Tang poems as their own
     * partition and the dizigui records added to the primers.
     */
    method LoadPrimate(disk: Disk, p: Plan, force: bool) returns (r: Outcome<PoetryCollection?>)
      requires p.source.Several?
      modifies this
      ensures slots - {PrimateSchool} == old(slots) - {PrimateSchool}
      ensures PrimateSchool in old(slots) && !force ==>
                r == Ok(old(slots)[PrimateSchool]) && slots == old(slots) && tangPoetry300 == old(tangPoetry300)
      ensures PrimateSchool in slots && !(PrimateSchool in old(slots) && slots[PrimateSchool] == old(slots)[PrimateSchool]) ==>
                fresh(slots[PrimateSchool]) && forall i :: 0 <= i < |slots[PrimateSchool].authors| ==> fresh(slots[PrimateSchool].authors[i])
      ensures r.Ok? ==> PrimateSchool in slots && slots[PrimateSchool] == r.value
      ensures old(Reloads(PrimateSchool, force)) ==> (r.Thrown? <==> SomeFails(Lookups(disk, p), |p.source.names|))
      ensures old(Reloads(PrimateSchool, force)) && r.Thrown? ==> slots == old(slots) && tangPoetry300 == old(tangPoetry300)
      ensures old(Reloads(PrimateSchool, force)) && r.Ok? ==>
                fresh(r.value) && FilesDistinct(r.value.col)
                && FilesOf(r.value.col) == FoundIn(Lookups(disk, p)) + (if DiziguiAdded(disk, p) then {disk.lookup(p.folder, Dizigui)} else {})
                && (forall j :: 0 <= j < |r.value.col| - (if DiziguiAdded(disk, p) then 1 else 0) ==> CachedLoad(r.value.col[j], p.handler))
                && (DiziguiAdded(disk, p) ==> r.value.col != [] && DiziguiEntry(r.value.col[|r.value.col| - 1], disk.lookup(p.folder, Dizigui)))
      ensures old(Reloads(PrimateSchool, force)) && r.Ok? ==>
                (GroupsLoad(disk.lookup(p.folder, TangPoems300)) ==>
                   tangPoetry300 != null && fresh(tangPoetry300) && TangPoemsEntry(tangPoetry300, disk.lookup(p.folder, TangPoems300)))
                && (!GroupsLoad(disk.lookup(p.folder, TangPoems300)) ==> tangPoetry300 == old(tangPoetry300))
    {
      if PrimateSchool in slots && !force {
        return Ok(slots[PrimateSchool]);
      }
      var o := LoadSeveralFiles(Lookups(disk, p), p.handler);
      if o.Thrown? {
        return Thrown(o.error);
      }
      var col := o.value;
      slots := slots[PrimateSchool := col];
      PrimateExtras(disk, p, col);
      return Ok(col);
    }

    /**
     * The swallowing block of `LoadPrimateSchoolAsync`: the three hundred Tang poems, then,
     * unless that step failed, the dizigui partition added to the primers `col`.
     */
    method PrimateExtras(disk: Disk, p: Plan, col: PoetryCollection)
      requires FilesDistinct(col.col) && forall j :: 0 <= j < |col.col| ==> CachedLoad(col.col[j], p.handler)
      modifies this, col
      ensures slots == old(slots) && col.authors == old(col.authors)
      ensures FilesDistinct(col.col)
      ensures FilesOf(col.col) == old(FilesOf(col.col)) + (if DiziguiAdded(disk, p) then {disk.lookup(p.folder, Dizigui)} else {})
      ensures forall j :: 0 <= j < |col.col| - (if DiziguiAdded(disk, p) then 1 else 0) ==> CachedLoad(col.col[j], p.handler)
      ensures DiziguiAdded(disk, p) ==> col.col != [] && DiziguiEntry(col.col[|col.col| - 1], disk.lookup(p.folder, Dizigui))
      ensures GroupsLoad(disk.lookup(p.folder, TangPoems300)) ==>
                tangPoetry300 != null && fresh(tangPoetry300) && TangPoemsEntry(tangPoetry300, disk.lookup(p.folder, TangPoems300))
      ensures !GroupsLoad(disk.lookup(p.folder, TangPoems300)) ==> tangPoetry300 == old(tangPoetry300)
    {
      ghost var before := col.col;
      var aborted := LoadTangPoems300(disk.lookup(p.folder, TangPoems300));
      if !aborted {
        var d := disk.lookup(p.folder, Dizigui);
        LoadDizigui(col, d);
        if TitledLoads(d) {
          Replaced(before, col.col[|col.col| - 1]);
          assert forall j :: 0 <= j < |col.col| - 1 ==> col.col[j] in before;
        }
      }
    }

    /**
     * The first step of the swallowing block: the three hundred Tang poems, when the file
     * decodes to a container with content. Reports whether the block stopped here.
     */
    method LoadTangPoems300(t: FileHandle?) returns (aborted: bool)
      modifies this
      ensures slots == old(slots)
      ensures aborted == ExtrasAborted(t)
      ensures GroupsLoad(t) ==> tangPoetry300 != null && fresh(tangPoetry300) && TangPoemsEntry(tangPoetry300, t)
      ensures !GroupsLoad(t) ==> tangPoetry300 == old(tangPoetry300)
    {
      if t == null {
        return false;
      }
      if !t.Exists() {
        return true;
      }
      var groups := t.content.value.asGroups;
      if groups.Malformed? {
        return true;
      }
      if groups.Value? && groups.value.content.Some? {
        tangPoetry300 := new PoetryFileInfo.FromRecords(t, Some(GroupedRecords(groups.value.content.value)));
      }
      return false;
    }

    /**
     * The accessor of corpus `c` with its constants; the generated manifest the accessor
     * writes, if any, is returned as (folder, name).
     */
    method Load(disk: Disk, c: Corpus, force: bool) returns (r: Outcome<PoetryCollection?>, written: Option<(string, string)>)
      modifies this, Lender(c, PlanOf(c)), LenderAuthors(c, PlanOf(c))
      ensures slots - {c} == old(slots) - {c}
      ensures c != PrimateSchool ==> tangPoetry300 == old(tangPoetry300)
      ensures c in old(slots) && !force ==>
                r == Ok(old(slots)[c]) && slots == old(slots) && tangPoetry300 == old(tangPoetry300) && written.None?
      ensures c in slots && !(c in old(slots) && slots[c] == old(slots)[c]) ==>
                fresh(slots[c]) && forall i :: 0 <= i < |slots[c].authors| ==> fresh(slots[c].authors[i])
      ensures r.Ok? ==> if r.value == null then c !in slots else c in slots && slots[c] == r.value
      ensures r.Ok? && r.value == null ==> c == SongPoetry || c == HuajianAnthology
      ensures written.Some? ==> PlanOf(c).source.Menu? && written.value == (PlanOf(c).folder, PlanOf(c).source.output)
    {
      var p := PlanOf(c);
      if p.source.Menu? {
        r, written := LoadMenu(disk, c, p, force);
      } else if p.source.Single? {
        r := LoadSingle(disk, c, p, force);
        written := None;
      } else if c == PrimateSchool {
        r := LoadPrimate(disk, p, force);
        written := None;
      } else {
        r := LoadSeveral(disk, c, p, force);
        written := None;
      }
    }

    /** Every slot is filled. */
    predicate AllFilled()
      reads this
    {
      forall c: Corpus :: c in slots
    }

    /** The first `k` accessors of `LoadOrder` that cannot leave a null slot have filled slots. */
    predicate FilledUpTo(k: nat)
      requires k <= |LoadOrder()|
      reads this
    {
      forall i :: 0 <= i < k && LoadOrder()[i] != SongPoetry && LoadOrder()[i] != HuajianAnthology ==> LoadOrder()[i] in slots
    }

    /** The slot Song lends from is the one it was, or a fresh collection with a fresh registry. */
    twostate predicate TangLends()
      reads this, if TangPoetry in slots then {slots[TangPoetry]} else {}
    {
      TangPoetry in slots ==>
        (TangPoetry in old(slots) && slots[TangPoetry] == old(slots)[TangPoetry])
        || (fresh(slots[TangPoetry]) && forall i :: 0 <= i < |slots[TangPoetry].authors| ==> fresh(slots[TangPoetry].authors[i]))
    }

    /** One await of `LoadFilesAsync`, for an accessor that merges authors into its own slot if at all. */
    method Step(disk: Disk, c: Corpus, k: nat, force: bool) returns (o: Outcome<PoetryCollection?>)
      requires k < |LoadOrder()| && LoadOrder()[k] == c && c != SongPoetry && FilledUpTo(k)
      modifies this
      ensures o.Ok? ==> FilledUpTo(k + 1)
      ensures !force && old(AllFilled()) ==> o.Ok? && slots == old(slots) && tangPoetry300 == old(tangPoetry300)
      ensures c != TangPoetry ==> (TangPoetry in slots <==> TangPoetry in old(slots)) && (TangPoetry in slots ==> slots[TangPoetry] == old(slots)[TangPoetry])
      ensures TangLends()
    {
      ghost var before := slots;
      var w;
      o, w := Load(disk, c, force);
      Untouched(before, slots, c);
    }

    /** The Song await of `LoadFilesAsync`, which may merge authors into the Tang slot. */
    method StepSong(disk: Disk, force: bool) returns (o: Outcome<PoetryCollection?>)
      requires FilledUpTo(2)
      modifies this, Lender(SongPoetry, PlanOf(SongPoetry)), LenderAuthors(SongPoetry, PlanOf(SongPoetry))
      ensures o.Ok? ==> FilledUpTo(3)
      ensures !force && old(AllFilled()) ==> o.Ok? && slots == old(slots) && tangPoetry300 == old(tangPoetry300)
    {
      ghost var before := slots;
      var w;
      o, w := Load(disk, SongPoetry, force);
      Untouched(before, slots, SongPoetry);
    }

    /**
     * `LoadFilesAsync`: every accessor in turn, in `LoadOrder`; the first exception ends
     * the run. `visited` is the accessors called.
     */
    method LoadFiles(disk: Disk, force: bool) returns (r: Outcome<()>, visited: seq<Corpus>)
      modifies this, Lender(SongPoetry, PlanOf(SongPoetry)), LenderAuthors(SongPoetry, PlanOf(SongPoetry))
      ensures 0 < |visited| <= |LoadOrder()| && visited == LoadOrder()[..|visited|]
      ensures r.Ok? ==> visited == LoadOrder()
      ensures !force && old(AllFilled()) ==> r.Ok? && slots == old(slots) && tangPoetry300 == old(tangPoetry300)
      ensures r.Ok? ==> forall c :: c != SongPoetry && c != HuajianAnthology ==> c in slots
    {
      var n;
      r, n := LoadFront(disk, force);
      if r.Thrown? {
        return r, LoadOrder()[..n];
      }
      r, n := LoadMiddle(disk, force);
      if r.Thrown? {
        return r, LoadOrder()[..n];
      }
      r, n := LoadBack(disk, force);
      if r.Thrown? {
        return r, LoadOrder()[..n];
      }
      forall c | c != SongPoetry && c != HuajianAnthology
        ensures c in slots
      {
        assert c in LoadOrder();
        var i :| 0 <= i < |LoadOrder()| && LoadOrder()[i] == c;
      }
      return Ok(()), LoadOrder();
    }

    /** The first awaits of `LoadFilesAsync`: the primers, Tang and Song. */
    method LoadFront(disk: Disk, force: bool) returns (r: Outcome<()>, n: nat)
      requires FilledUpTo(0)
      modifies this, Lender(SongPoetry, PlanOf(SongPoetry)), LenderAuthors(SongPoetry, PlanOf(SongPoetry))
      ensures 0 < n <= 3 && (r.Ok? ==> n == 3 && FilledUpTo(3))
      ensures !force && old(AllFilled()) ==> r.Ok? && slots == old(slots) && tangPoetry300 == old(tangPoetry300)
    {
      var o: Outcome<PoetryCollection?>;
      o := Step(disk, PrimateSchool, 0, force);
      if o.Thrown? {
        return Thrown(o.error), 1;
      }
      o := Step(disk, TangPoetry, 1, force);
      if o.Thrown? {
        return Thrown(o.error), 2;
      }
      o := StepSong(disk, force);
      if o.Thrown? {
        return Thrown(o.error), 3;
      }
      return Ok(()), 3;
    }

    /** The middle awaits of `LoadFilesAsync`: Song lyrics to the Analects. */
    method LoadMiddle(disk: Disk, force: bool) returns (r: Outcome<()>, n: nat)
      requires FilledUpTo(3)
      modifies this
      ensures 3 < n <= 8 && (r.Ok? ==> n == 8 && FilledUpTo(8))
      ensures !force && old(AllFilled()) ==> r.Ok? && slots == old(slots) && tangPoetry300 == old(tangPoetry300)
    {
      var o: Outcome<PoetryCollection?>;
      o := Step(disk, SongLyrics, 3, force);
      if o.Thrown? {
        return Thrown(o.error), 4;
      }
      o := Step(disk, YuanVerses, 4, force);
      if o.Thrown? {
        return Thrown(o.error), 5;
      }
      o := Step(disk, BookOfSongs, 5, force);
      if o.Thrown? {
        return Thrown(o.error), 6;
      }
      r, n := LoadClassics(disk, force);
    }

    /** The awaits of `LoadFilesAsync` for the classics: the Four Books and the Analects. */
    method LoadClassics(disk: Disk, force: bool) returns (r: Outcome<()>, n: nat)
      requires FilledUpTo(6)
      modifies this
      ensures 6 < n <= 8 && (r.Ok? ==> n == 8 && FilledUpTo(8))
      ensures !force && old(AllFilled()) ==> r.Ok? && slots == old(slots) && tangPoetry300 == old(tangPoetry300)
    {
      var o: Outcome<PoetryCollection?>;
      o := Step(disk, FourBooksFiveClassics, 6, force);
      if o.Thrown? {
        return Thrown(o.error), 7;
      }
      o := Step(disk, ConfucianAnalects, 7, force);
      if o.Thrown? {
        return Thrown(o.error), 8;
      }
      return Ok(()), 8;
    }

    /** The last awaits of `LoadFilesAsync`: Chu to Caocao. */
    method LoadBack(disk: Disk, force: bool) returns (r: Outcome<()>, n: nat)
      requires FilledUpTo(8)
      modifies this
      ensures 8 < n <= 12 && (r.Ok? ==> n == 12 && FilledUpTo(12))
      ensures !force && old(AllFilled()) ==> r.Ok? && slots == old(slots) && tangPoetry300 == old(tangPoetry300)
    {
      var o: Outcome<PoetryCollection?>;
      o := Step(disk, ChuSongs, 8, force);
      if o.Thrown? {
        return Thrown(o.error), 9;
      }
      o := Step(disk, HuajianAnthology, 9, force);
      if o.Thrown? {
        return Thrown(o.error), 10;
      }
      o := Step(disk, SouthernTangPoetry, 10, force);
      if o.Thrown? {
        return Thrown(o.error), 11;
      }
      o := Step(disk, CaocaoAnthology, 11, force);
      if o.Thrown? {
        return Thrown(o.error), 12;
      }
      return Ok(()), 12;
    }

    /** `Slot = value`: a null value empties the slot. */
    method Store(c: Corpus, value: PoetryCollection?)
      modifies this
      ensures value == null ==> slots == old(slots) - {c}
      ensures value != null ==> slots == old(slots)[c := value]
      ensures tangPoetry300 == old(tangPoetry300)
    {
      if value == null {
        slots := slots - {c};
      } else {
        slots := slots[c := value];
      }
    }
  }
}
