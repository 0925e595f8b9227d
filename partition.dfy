/**
 * One partition of a corpus (`PoetryFileInfo`, Chinese/PoetryPartition.cs): a record
 * file, its sparse author/title index, and an optional cache of the file's records.
 * With no cache the partition is index-only; `LoadData` fills the cache and
 * `ClearCache` empties it again.
 */
module Partition {
  import opened Wrappers
  import opened Text
  import opened Json
  import opened Seqs
  import opened Model
  import opened Authors
  import opened Matching
  import opened Documents
  import opened Index

  /** The load handler: the records to cache, from the index and the file (null for none). */
  type Loader = (seq<AuthorPoetry>, FileHandle?) -> Option<seq<Poem>>

  /** `IPoetryBasicInfo`: what a listing shows of a poem. */
  datatype BasicInfo = BasicInfo(fullTitle: Option<string>, author: Option<string>)

  /** `SearchCache(string)`'s test: the author equals the query, or the full title contains it. */
  predicate RecordMatchesQuery(p: Poem, q: string) {
    EqualsIgnoreCase(q, p.author) || (!IsBlank(FullTitle(p)) && Contains(FullTitle(p), q))
  }

  /**
   * `SearchCache(IEnumerable<string>)`'s test of one record: true when the author is in
   * the list, else the queries are tried against the full title (false when it is blank,
   * which both the test and `Contains` check), and a null query reached before a match throws.
   */
  function RecordAnswer(p: Poem, qs: seq<Option<string>>): (r: Outcome<bool>)
    ensures r.Thrown? ==> r.error == ArgumentNullException && !NullFree(qs)
    ensures NullFree(qs) ==> r == Ok(ContainsName(qs, p.author) || exists i :: 0 <= i < |qs| && Contains(FullTitle(p), qs[i].value))
  {
    if ContainsName(qs, p.author) then Ok(true)
    else
      var t := FullTitle(p);
      assert NullFree(qs) ==> ContainsAny(t, Some(qs)) == Ok(exists i :: 0 <= i < |qs| && Contains(t, qs[i].value)) by {
        if NullFree(qs) {
          NullFreeContainsAny(t, qs);
        }
      }
      ContainsAny(t, Some(qs))
  }

  /** A record that `SearchCache(IEnumerable<string>)` keeps. */
  predicate RecordMatchesQueries(p: Poem, qs: seq<Option<string>>) {
    RecordAnswer(p, qs) == Ok(true)
  }

  /** That test as the function `Where` applies. */
  function RecordHit(qs: seq<Option<string>>): Poem -> Outcome<bool> {
    p => RecordAnswer(p, qs)
  }

  /** A title the listing shows. */
  predicate NonBlankTitle(t: string) {
    !IsBlank(Some(t))
  }

  /** The listing entries of an index row: one per non-blank title. */
  function RowInfos(row: NamedRow): seq<BasicInfo> {
    TitleEntries(row.key, row.poetry)
  }

  /** The listing entries of the titles of one author. */
  function TitleEntries(key: Option<string>, titles: seq<string>): seq<BasicInfo> {
    Map((t: string) => BasicInfo(Some(t), key), Filter(titles, NonBlankTitle))
  }

  /** One more title adds one more entry exactly when it is not blank. */
  lemma TitleEntriesSnoc(key: Option<string>, titles: seq<string>, t: string)
    ensures TitleEntries(key, titles + [t])
         == TitleEntries(key, titles) + (if NonBlankTitle(t) then [BasicInfo(Some(t), key)] else [])
  {
    var info := (t: string) => BasicInfo(Some(t), key);
    FilterAppend(titles, [t], NonBlankTitle);
    assert [t][1..] == [];
    var kept, last := Filter(titles, NonBlankTitle), Filter([t], NonBlankTitle);
    assert last == if NonBlankTitle(t) then [t] else [];
    var l, r := Map(info, kept + last), Map(info, kept) + Map(info, last);
    assert |l| == |r|;
    forall i | 0 <= i < |l| ensures l[i] == r[i] {
      if i >= |kept| {
        assert (kept + last)[i] == last[i - |kept|];
      }
    }
  }

  /** With valid rows every title is listed: the listing is as long as the title count. */
  lemma {:induction false} ListingLength(rows: seq<NamedRow>)
    requires forall i :: 0 <= i < |rows| ==> TitlesValid(rows[i].poetry)
    ensures SumLengths(Map(RowInfos, rows)) == TitleCount(rows)
  {
    if rows != [] {
      var n := |rows|;
      assert Map(RowInfos, rows)[..n - 1] == Map(RowInfos, rows[..n - 1]);
      ListingLength(rows[..n - 1]);
      FilterAll(rows[n - 1].poetry, NonBlankTitle);
    }
  }

  /** The listing entry of a cached record. */
  function RecordInfo(p: Poem): BasicInfo {
    BasicInfo(FullTitle(p), p.author)
  }

  /** The current names of a list of author objects, `null` entries included. */
  function NamesIn(authors: seq<AuthorInfo?>): (r: seq<Option<string>>)
    reads set a: AuthorInfo | a in authors
    ensures |r| == |authors| && forall i :: 0 <= i < |authors| ==> r[i] == NameOf(authors[i])
  {
    seq(|authors|, i reads set a: AuthorInfo | a in authors requires 0 <= i < |authors| => NameOf(authors[i]))
  }

  /** The index row `key` may file a record by `author` under: null for a blank author, else an author of that name ignoring case. */
  predicate KeyFits(key: AuthorInfo?, author: Option<string>)
    reads key
  {
    if IsBlank(author) then key == null else key != null && EqualsIgnoreCase(author.value, key.name)
  }

  /** Every record with a non-blank full title is filed in the index under an author that fits it. */
  ghost predicate IndexCovers(rows: seq<AuthorPoetry>, records: seq<Poem>)
    reads AuthorsOf(rows)
  {
    forall k :: 0 <= k < |records| && !IsBlank(FullTitle(records[k])) ==>
      exists j :: 0 <= j < |rows| && FullTitle(records[k]).value in rows[j].poetry && KeyFits(rows[j].key, records[k].author)
  }

  /** Every filed title is the full title of a record whose author fits the row. */
  ghost predicate IndexSound(rows: seq<AuthorPoetry>, records: seq<Poem>)
    reads AuthorsOf(rows)
  {
    forall j, t :: 0 <= j < |rows| && 0 <= t < |rows[j].poetry| ==> FiledFrom(rows, records, j, t)
  }

  /** The rows of a manifest object's `poetry` array, none when it has no such array. */
  function ManifestItems(json: Option<map<string, Json>>): seq<Json> {
    if json.None? then []
    else
      var arr := ArrayField(json.value, "poetry");
      if arr.None? then [] else arr.value
  }

  /**
   * A registry author appended while restoring a manifest: some row of the manifest names
   * it, and it keys a row of the index as soon as one row naming it has a non-blank title.
   */
  ghost predicate NamedByRow(a: AuthorInfo, rows: seq<AuthorPoetry>, items: seq<Json>)
    reads a
  {
    (exists m :: 0 <= m < |items| && ItemKey(items[m]) == a.name)
    && forall m :: 0 <= m < |items| && ItemKey(items[m]) == a.name && ItemTitled(items[m]) ==> RowOf(rows, a).Some?
  }

  /** Every name a manifest row gives that `before` lacks is the exact name of an author appended after it. */
  ghost predicate RegistersRowNames(reg: seq<AuthorInfo>, before: seq<AuthorInfo>, items: seq<Json>)
    reads reg, before
  {
    forall m :: 0 <= m < |items| && ItemKey(items[m]).Some? && FirstNamed(before, ItemKey(items[m])).None? ==>
      exists k :: |before| <= k < |reg| && reg[k].name == ItemKey(items[m])
  }

  /** The registry facts the loop of `Create` keeps after `n` manifest rows. */
  ghost predicate RowsRegistered(reg: seq<AuthorInfo>, from: nat, items: seq<Json>, n: nat)
    requires n <= |items|
    reads reg
  {
    (forall j :: from <= j < |reg| ==> (exists m :: 0 <= m < n && ItemKey(items[m]) == reg[j].name) && Canonical(reg, reg[j]))
    && forall m :: 0 <= m < n && ItemKey(items[m]).Some? ==> FirstNamed(reg, ItemKey(items[m])).Some?
  }

  /** One more manifest row, resolved against the registry, keeps the loop's registry facts. */
  lemma RowsRegisteredSnoc(reg: seq<AuthorInfo>, reg': seq<AuthorInfo>, from: nat, items: seq<Json>, n: nat)
    requires n < |items| && from <= |reg| && RowsRegistered(reg, from, items, n)
    requires reg' == reg || (|reg'| == |reg| + 1 && reg'[..|reg|] == reg
                             && reg'[|reg|].name == ItemKey(items[n]) && Canonical(reg', reg'[|reg|]))
    requires ItemKey(items[n]).Some? ==> FirstNamed(reg', ItemKey(items[n])).Some?
    ensures RowsRegistered(reg', from, items, n + 1)
  {
    if reg' != reg {
      var a := reg'[|reg|];
      assert reg' == reg + [a];
      forall j | from <= j < |reg'|
        ensures (exists m :: 0 <= m < n + 1 && ItemKey(items[m]) == reg'[j].name) && Canonical(reg', reg'[j])
      {
        if j < |reg| {
          assert reg'[j] == reg[j];
          CanonicalExtends(reg, [a], reg[j]);
        } else {
          assert ItemKey(items[n]) == reg'[j].name;
        }
      }
      forall m | 0 <= m < n + 1 && ItemKey(items[m]).Some?
        ensures FirstNamed(reg', ItemKey(items[m])).Some?
      {
        FirstNamedAppend(reg, a, ItemKey(items[m]));
      }
    }
  }

  /**
   * After the loop of `Create`: every appended author is named by a row and keys a row
   * of the index when a row naming it has a title.
   */
  lemma RowsRegisteredDone(poems: seq<AuthorPoetry>, reg: seq<AuthorInfo>, from: nat, items: seq<Json>)
    requires from <= |reg| && RowsRegistered(reg, from, items, |items|)
    requires Named(poems) == DecodeRows(items) && forall i :: 0 <= i < |poems| ==> Canonical(reg, poems[i].key)
    ensures forall j :: from <= j < |reg| ==> NamedByRow(reg[j], poems, items)
  {
    forall j | from <= j < |reg|
      ensures NamedByRow(reg[j], poems, items)
    {
      assert Canonical(reg, reg[j]);
      forall m | 0 <= m < |items| && ItemKey(items[m]) == reg[j].name && ItemTitled(items[m])
        ensures RowOf(poems, reg[j]).Some?
      {
        RowForName(poems, reg, items, m, reg[j]);
      }
    }
  }

  /** A titled manifest row naming a canonical author leaves a row keyed by that author. */
  lemma RowForName(poems: seq<AuthorPoetry>, reg: seq<AuthorInfo>, items: seq<Json>, m: nat, a: AuthorInfo)
    requires Named(poems) == DecodeRows(items) && forall i :: 0 <= i < |poems| ==> Canonical(reg, poems[i].key)
    requires m < |items| && ItemKey(items[m]) == a.name && ItemTitled(items[m]) && Canonical(reg, a)
    ensures RowOf(poems, a).Some?
  {
    DecodeRowsRow(items, m);
    var r := RowOf(Named(poems), ItemKey(items[m])).value;
    assert NameOf(poems[r].key) == a.name;
    CanonicalByName(reg, poems[r].key, a);
  }

  /** After the loop of `Create`: every row name the old registry lacks was appended. */
  lemma RowNamesAppended(reg: seq<AuthorInfo>, authors: seq<AuthorInfo>, items: seq<Json>)
    requires |authors| <= |reg| && reg[..|authors|] == authors && RowsRegistered(reg, |authors|, items, |items|)
    ensures RegistersRowNames(reg, authors, items)
  {
    forall m | 0 <= m < |items| && ItemKey(items[m]).Some? && FirstNamed(authors, ItemKey(items[m])).None?
      ensures exists k :: |authors| <= k < |reg| && reg[k].name == ItemKey(items[m])
    {
      var f := FirstNamed(reg, ItemKey(items[m])).value;
      assert forall j :: 0 <= j < |authors| ==> reg[j] == authors[j];
      assert |authors| <= f;
    }
  }

  /** Title `t` of row `j` is the full title of a record whose author fits the row. */
  ghost predicate FiledFrom(rows: seq<AuthorPoetry>, records: seq<Poem>, j: nat, t: nat)
    requires j < |rows| && t < |rows[j].poetry|
    reads AuthorsOf(rows)
  {
    exists k :: 0 <= k < |records| && FullTitle(records[k]) == Some(rows[j].poetry[t]) && KeyFits(rows[j].key, records[k].author)
  }

  /**
   * A record that answers a non-blank query answers it through the index too, once the
   * index files it: the row's author name or the filed title matches as well.
   */
  lemma FiledRecordMatchesRow(row: NamedRow, p: Poem, q: string)
    requires !IsBlank(Some(q)) && !IsBlank(FullTitle(p)) && FullTitle(p).value in row.poetry
    requires IsBlank(p.author) ==> row.key.None?
    requires !IsBlank(p.author) ==> EqualsIgnoreCase(p.author.value, row.key)
    requires RecordMatchesQuery(p, q)
    ensures RowMatchesQuery(row, q)
  {
    if EqualsIgnoreCase(q, p.author) {
      FoldKeepsBlank(q);
      FoldKeepsBlank(p.author.value);
    } else {
      var j :| 0 <= j < |row.poetry| && row.poetry[j] == FullTitle(p).value;
      assert Contains(Some(row.poetry[j]), q);
    }
  }

  /**
   * The same for a query list, where a blank query can only match through a title: the
   * row's answer is not false, though a null query met at an earlier title may make it throw.
   */
  lemma FiledRecordMatchesRowQueries(row: NamedRow, p: Poem, qs: seq<Option<string>>)
    requires !IsBlank(FullTitle(p)) && FullTitle(p).value in row.poetry
    requires IsBlank(p.author) ==> row.key.None?
    requires !IsBlank(p.author) ==> EqualsIgnoreCase(p.author.value, row.key)
    requires RecordMatchesQueries(p, qs)
    ensures RowAnswer(row, qs) != Ok(false)
  {
    if ContainsName(qs, p.author) {
      var i :| 0 <= i < |qs| && NameMatches(qs[i], p.author);
      FoldKeepsBlank(qs[i].value);
      FoldKeepsBlank(p.author.value);
      assert NameMatches(qs[i], row.key);
      assert ContainsName(qs, row.key);
    } else {
      var t := FullTitle(p);
      assert ContainsAny(t, Some(qs)) == Ok(true);
      TitleDecides(row, qs, t.value);
    }
  }

  lemma ThenThen(a: seq<Poem>, b: seq<Poem>, o: Outcome<seq<Poem>>)
    ensures Then(a, Then(b, o)) == Then(a + b, o)
  {
    if o.Ok? {
      assert a + (b + o.value) == (a + b) + o.value;
    }
  }

  class PoetryFileInfo {
    const file: FileHandle?
    const load: Option<Loader>
    var poems: seq<AuthorPoetry>
    var cache: Option<seq<Poem>>

    /** `new PoetryFileInfo(file, allData)` */
    constructor FromRecords(file: FileHandle?, allData: Option<seq<Poem>>)
      ensures this.file == file && load.None? && poems == [] && cache == allData
    {
      this.file := file;
      load := None;
      poems := [];
      cache := allData;
    }

    /** `new PoetryFileInfo(load, file)` */
    constructor WithLoader(load: Loader, file: FileHandle?)
      ensures this.file == file && this.load == Some(load) && poems == [] && cache.None?
    {
      this.file := file;
      this.load := Some(load);
      poems := [];
      cache := None;
    }

    /** What a later load returns is ok, and the index files every record of it. */
    ghost predicate Covers()
      reads this, AuthorsOf(poems)
    {
      LoadOutcome().Ok? && IndexCovers(poems, LoadOutcome().value)
    }

    /** The index keeps one row per author and valid titles in every row. */
    ghost predicate Valid()
      reads this
    {
      IndexValid(poems)
    }

    /** The cache length when cached, otherwise the number of indexed titles. */
    function Count(): (r: nat)
      reads this
      ensures cache.Some? ==> r == |cache.value|
      ensures cache.None? ==> forall i :: 0 <= i < |poems| ==> |poems[i].poetry| <= r
      ensures cache.None? ==> (r == 0 <==> forall i :: 0 <= i < |poems| ==> poems[i].poetry == [])
    {
      if cache.Some? then |cache.value| else TitleCountBounds(poems); TitleCount(poems)
    }

    /** Files `title` under `author`: a new row at the end for a new author, a title only once. */
    method Add(author: AuthorInfo?, title: Option<string>)
      modifies this
      ensures poems == AddToIndex(old(poems), author, title)
      ensures cache == old(cache)
    {
      if IsBlank(title) {
        return;
      }
      var i := 0;
      while i < |poems| && poems[i].key != author
        invariant 0 <= i <= |poems|
        invariant forall j :: 0 <= j < i ==> poems[j].key != author
      {
        i := i + 1;
      }
      if i == |poems| {
        poems := poems + [Row(author, [title.value])];
      } else {
        RowOfIs(poems, author, i);
        var titles := poems[i].poetry;
        if title.value !in titles {
          titles := titles + [title.value];
        }
        poems := poems[i := poems[i].(poetry := titles)];
      }
    }

    /** `Any(author)`: some row belongs to exactly this author object. */
    function AnyAuthor(author: AuthorInfo?): (r: bool)
      reads this`poems
      ensures r <==> exists i :: 0 <= i < |poems| && poems[i].key == author
    {
      RowOf(poems, author).Some?
    }

    /** `Any(authors)`: false for a null list, otherwise some row's author is in the list. */
    function AnyAuthorIn(authors: Option<seq<AuthorInfo?>>): (r: bool)
      reads this`poems
      ensures r <==> authors.Some? && exists i :: 0 <= i < |poems| && poems[i].key in authors.value
    {
      authors.Some? && AnyKeyIn(poems, authors.value)
    }

    /** `Any(string)`: false for a blank query, otherwise some row answers it. */
    function AnyQuery(q: Option<string>): (r: bool)
      reads this`poems, AuthorsOf(poems)
      ensures r <==> !IsBlank(q) && exists i :: 0 <= i < |poems| && RowMatchesQuery(Named(poems)[i], q.value)
    {
      !IsBlank(q) && AnyRowMatchesQuery(Named(poems), q.value)
    }

    /**
     * `Any(IEnumerable<string>)`: false for a null list, otherwise the rows are tried in
     * order; a null query reached before any row answers throws.
     */
    function AnyQueryIn(qs: Option<seq<Option<string>>>): (r: Outcome<bool>)
      reads this`poems, AuthorsOf(poems)
      ensures qs.None? ==> r == Ok(false)
      ensures r.Thrown? ==> r.error == ArgumentNullException && qs.Some? && !NullFree(qs.value)
      ensures r == Ok(true) ==> exists i :: 0 <= i < |poems| && RowMatchesQueries(Named(poems)[i], qs.value)
      ensures qs.Some? && NullFree(qs.value) ==>
                r == Ok(exists i :: 0 <= i < |poems| && RowMatchesQueries(Named(poems)[i], qs.value))
    {
      if qs.None? then Ok(false) else AnyRowMatchesQueries(Named(poems), qs.value)
    }

    /** `Any(Func<string, bool>)`: some indexed title passes `p`. */
    function AnyTitle(p: string -> bool): (r: bool)
      reads this`poems
      ensures r <==> exists i, j :: 0 <= i < |poems| && 0 <= j < |poems[i].poetry| && p(poems[i].poetry[j])
    {
      AnyOf(poems, (row: AuthorPoetry) => AnyOf(row.poetry, p))
    }

    /** `SearchCache(author)`: the cached records whose author is the author's name. */
    function SearchCacheAuthor(author: AuthorInfo?): (r: Option<seq<Poem>>)
      reads this, author
      ensures r.None? <==> cache.None?
      ensures r.Some? ==> IsSubsequence(r.value, cache.value)
      ensures r.Some? ==> forall p :: p in r.value <==> p in cache.value && p.author == NameOf(author)
      ensures r.Some? ==> forall p :: multiset(r.value)[p] == if p.author == NameOf(author) then multiset(cache.value)[p] else 0
    {
      if cache.None? then None
      else
        var name := NameOf(author);
        var keep := (p: Poem) => p.author == name;
        FilterIsSubsequence(cache.value, keep);
        FilterMultiset(cache.value, keep);
        Some(Filter(cache.value, keep))
    }

    /** `SearchCache(authors)`: null without a cache or a list, else the records by any listed author. */
    function SearchCacheAuthors(authors: Option<seq<AuthorInfo?>>): (r: Option<seq<Poem>>)
      reads this, if authors.Some? then (set a: AuthorInfo | a in authors.value) else {}
      ensures r.None? <==> cache.None? || authors.None?
      ensures r.Some? ==> IsSubsequence(r.value, cache.value)
      ensures r.Some? ==> forall p :: p in r.value <==> p in cache.value && p.author in NamesIn(authors.value)
      ensures r.Some? ==>
                forall p :: multiset(r.value)[p] == if p.author in NamesIn(authors.value) then multiset(cache.value)[p] else 0
    {
      if cache.None? || authors.None? then None
      else
        var names := NamesIn(authors.value);
        var keep := (p: Poem) => p.author in names;
        FilterIsSubsequence(cache.value, keep);
        FilterMultiset(cache.value, keep);
        Some(Filter(cache.value, keep))
    }

    /** `SearchCache(string)`: null without a cache, empty for a blank query, else the matching records. */
    function SearchCacheQuery(q: Option<string>): (r: Option<seq<Poem>>)
      reads this
      ensures r.None? <==> cache.None?
      ensures r.Some? && IsBlank(q) ==> r.value == []
      ensures r.Some? ==> IsSubsequence(r.value, cache.value)
      ensures r.Some? ==> forall p :: p in r.value <==> p in cache.value && !IsBlank(q) && RecordMatchesQuery(p, q.value)
      ensures r.Some? ==>
                forall p :: multiset(r.value)[p] == if !IsBlank(q) && RecordMatchesQuery(p, q.value) then multiset(cache.value)[p] else 0
    {
      if cache.None? then None
      else if IsBlank(q) then
        assert IsSubsequence([], cache.value) by { EmptyIsSubsequence(cache.value); }
        Some([])
      else
        var keep := (p: Poem) => RecordMatchesQuery(p, q.value);
        FilterIsSubsequence(cache.value, keep);
        FilterMultiset(cache.value, keep);
        Some(Filter(cache.value, keep))
    }

    /**
     * `SearchCache(IEnumerable<string>)`, enumerated: null without a cache, empty for a
     * null list, else the matching records, unless the test of some cached record throws.
     */
    function SearchCacheQueries(qs: Option<seq<Option<string>>>): (r: Option<Outcome<seq<Poem>>>)
      reads this
      ensures r.None? <==> cache.None?
      ensures r.Some? && qs.None? ==> r.value == Ok([])
      ensures r.Some? ==> (r.value.Thrown? <==>
                qs.Some? && exists i :: 0 <= i < |cache.value| && RecordAnswer(cache.value[i], qs.value).Thrown?)
      ensures r.Some? && r.value.Thrown? ==> r.value.error == ArgumentNullException
      ensures r.Some? && r.value.Ok? ==> IsSubsequence(r.value.value, cache.value)
      ensures r.Some? && r.value.Ok? ==>
                forall p :: p in r.value.value <==> p in cache.value && qs.Some? && RecordMatchesQueries(p, qs.value)
      ensures r.Some? && r.value.Ok? ==>
                forall p :: multiset(r.value.value)[p] == if qs.Some? && RecordMatchesQueries(p, qs.value) then multiset(cache.value)[p] else 0
    {
      if cache.None? then None
      else if qs.None? then
        assert IsSubsequence([], cache.value) by { EmptyIsSubsequence(cache.value); }
        Some(Ok([]))
      else
        var o := FilterOutcome(cache.value, RecordHit(qs.value));
        assert o.Ok? ==> IsSubsequence(o.value, cache.value) &&
                         forall p :: multiset(o.value)[p] == if RecordMatchesQueries(p, qs.value) then multiset(cache.value)[p] else 0 by {
          FilterIsSubsequence(cache.value, Accepts(RecordHit(qs.value)));
          FilterMultiset(cache.value, Accepts(RecordHit(qs.value)));
        }
        Some(o)
    }

    /** `SearchCache(predicate)`: null without a cache, else the records that pass. */
    function SearchCacheWhere(keep: Poem -> bool): (r: Option<seq<Poem>>)
      reads this
      ensures r.None? <==> cache.None?
      ensures r.Some? ==> IsSubsequence(r.value, cache.value)
      ensures r.Some? ==> forall p :: p in r.value <==> p in cache.value && keep(p)
      ensures r.Some? ==> forall p :: multiset(r.value)[p] == if keep(p) then multiset(cache.value)[p] else 0
    {
      if cache.None? then None
      else
        FilterIsSubsequence(cache.value, keep);
        FilterMultiset(cache.value, keep);
        Some(Filter(cache.value, keep))
    }

    /** What `LoadDataAsync()` yields from the current state. */
    function LoadOutcome(): (r: Outcome<seq<Poem>>)
      reads this
      ensures r.Thrown? ==> cache.None? && load.None? && file != null && file.Exists()
      ensures r.Thrown? ==> r.error == JsonException || r.error == NullReferenceException
      ensures r.Ok? && cache.None? && load.None? ==> AllReorganized(r.value)
    {
      if cache.Some? then Ok(cache.value)
      else if load.Some? then Ok(load.value(poems, file).GetOr([]))
      else if file == null || !file.Exists() then Ok([])
      else ParseFile(file)
    }

    /**
     * `LoadDataAsync()`: returns the cache, filling it first when it is null. A parse
     * failure propagates and leaves the partition as it was.
     */
    method LoadData() returns (r: Outcome<seq<Poem>>)
      modifies this`cache
      ensures r == old(LoadOutcome())
      ensures r.Ok? ==> cache == Some(r.value)
      ensures r.Thrown? ==> cache == old(cache)
      ensures poems == old(poems)
      ensures LoadOutcome() == old(LoadOutcome())
    {
      if cache.Some? {
        return Ok(cache.value);
      }
      if load.Some? {
        var c := load.value(poems, file);
        cache := Some(c.GetOr([]));
        return Ok(cache.value);
      }
      if file == null || !file.Exists() {
        cache := Some([]);
        return Ok([]);
      }
      r := Parse(file);
      if r.Ok? {
        cache := Some(r.value);
      }
    }

    /** `ClearCache()`: back to index-only; the index is kept. */
    method ClearCache()
      modifies this
      ensures cache.None? && poems == old(poems)
    {
      cache := None;
    }

    /** `Count()` is the length of the listing, cached or not. */
    lemma CountIsListingLength()
      requires Valid()
      ensures |BasicInfos()| == Count()
    {
      if cache.None? {
        FlattenLength(Map(RowInfos, Named(poems)));
        ListingLength(Named(poems));
        TitleCountNamed(poems);
      }
    }

    /** The listing `EnumerableBasicInfo()` yields from the current state. */
    function BasicInfos(): seq<BasicInfo>
      reads this, AuthorsOf(poems)
    {
      if cache.Some? then Map(RecordInfo, cache.value) else Flatten(Map(RowInfos, Named(poems)))
    }

    /** `EnumerableBasicInfo()`: the cached records, or else one entry per indexed title. */
    method EnumerableBasicInfo() returns (r: seq<BasicInfo>)
      ensures r == BasicInfos()
    {
      if cache.Some? {
        r := RecordInfos(cache.value);
        assert r == Map(RecordInfo, cache.value);
      } else {
        var named := Named(poems);
        r := IndexInfos(named);
        assert named == Named(poems);
      }
    }

    static method RecordInfos(records: seq<Poem>) returns (r: seq<BasicInfo>)
      ensures r == Map(RecordInfo, records)
    {
      r := [];
      var i := 0;
      while i < |records|
        invariant 0 <= i <= |records|
        invariant r == Map(RecordInfo, records[..i])
      {
        r := r + [RecordInfo(records[i])];
        i := i + 1;
      }
      assert records[..i] == records;
    }

    static method IndexInfos(rows: seq<NamedRow>) returns (r: seq<BasicInfo>)
      ensures r == Flatten(Map(RowInfos, rows))
    {
      r := [];
      var i := 0;
      while i < |rows|
        invariant 0 <= i <= |rows|
        invariant r == Flatten(Map(RowInfos, rows[..i]))
      {
        var row := TitleInfos(rows[i]);
        assert Map(RowInfos, rows[..i + 1]) == Map(RowInfos, rows[..i]) + [RowInfos(rows[i])];
        FlattenSnoc(Map(RowInfos, rows[..i]), RowInfos(rows[i]));
        r := r + row;
        i := i + 1;
      }
      assert rows[..i] == rows;
    }

    static method TitleInfos(row: NamedRow) returns (r: seq<BasicInfo>)
      ensures r == RowInfos(row)
    {
      var titles := row.poetry;
      r := [];
      var j := 0;
      while j < |titles|
        invariant 0 <= j <= |titles|
        invariant r == TitleEntries(row.key, titles[..j])
      {
        assert titles[..j + 1] == titles[..j] + [titles[j]];
        TitleEntriesSnoc(row.key, titles[..j], titles[j]);
        if !IsBlank(Some(titles[j])) {
          r := r + [BasicInfo(Some(titles[j]), row.key)];
        }
        j := j + 1;
      }
      assert titles[..j] == titles;
    }

    /** The `(JsonObject)` form: the last segment of the file's path and one `[author, titles...]` row per index row. */
    function ToJson(): (r: map<string, Json>)
      reads this, AuthorsOf(poems)
      ensures file != null && !IsBlank(Some(Leaf(file.name))) && ManifestRowsValid(Named(poems)) ==>
                DecodeManifest(Some(r)) == Some((Leaf(file.name), Named(poems)))
    {
      var name := if file == null then None else Some(Leaf(file.name));
      if file != null && !IsBlank(name) && ManifestRowsValid(Named(poems)) then
        ManifestRoundTrip(name.value, Named(poems));
        EncodeManifest(name, Named(poems))
      else EncodeManifest(name, Named(poems))
    }

    /** The static `LoadDataAsync(file)`: the three-tier parse of a file, record by record. */
    static method Parse(file: FileHandle?) returns (r: Outcome<seq<Poem>>)
      ensures r == ParseFile(file)
    {
      if file == null || !file.Exists() {
        return Ok([]);
      }
      var d := file.content.value;
      match d.asArray {
        case Value(items) =>
          r := ParseArray(items);
          return;
        case Null =>
          return Ok([]);
        case Malformed =>
      }
      match d.asObject {
        case Value(p) =>
          var m := new PoetryModel(p);
          m.Reorganize();
          return Ok([m.Value()]);
        case Null =>
          return Ok([]);
        case Malformed =>
      }
      r := ParseLines(d.lines, d.parseLine);
    }

    /** The first tier: every decoded record reorganized in place. */
    static method ParseArray(items: seq<Option<Poem>>) returns (r: Outcome<seq<Poem>>)
      ensures r == (var o := ArrayRecords(items); if o.Ok? then Ok(ReorganizeAll(o.value)) else o)
    {
      var col := [];
      var i := 0;
      while i < |items|
        invariant 0 <= i <= |items|
        invariant forall j :: 0 <= j < i ==> items[j].Some?
        invariant |col| == i && forall j :: 0 <= j < i ==> col[j] == Reorganized(items[j].value)
      {
        if items[i].None? {
          return Thrown(NullReferenceException);
        }
        var m := new PoetryModel(items[i].value);
        m.Reorganize();
        col := col + [m.Value()];
        i := i + 1;
      }
      var o := ArrayRecords(items);
      assert o.Ok?;
      assert col == ReorganizeAll(o.value);
      return Ok(col);
    }

    /** The third tier: one record per line, short lines skipped. */
    static method ParseLines(lines: seq<string>, parse: string -> Decoded<Poem>) returns (r: Outcome<seq<Poem>>)
      ensures r == LineMode(lines, parse, true)
    {
      var col := [];
      var i := 0;
      var trim := true;
      assert lines[0..] == lines;
      var whole := LineMode(lines, parse, true);
      assert whole.Ok? ==> [] + whole.value == whole.value;
      assert Then([], whole) == whole;
      while i < |lines|
        invariant 0 <= i <= |lines|
        invariant whole == Then(col, LineMode(lines[i..], parse, trim))
      {
        assert lines[i..][1..] == lines[i + 1..];
        var l := if trim then Trim(lines[i]) else lines[i];
        ghost var rest := LineMode(lines[i + 1..], parse, true);
        i := i + 1;
        if Utf16Length(l) < MinLineLength {
          trim := false;
          continue;
        }
        var decoded := parse(l);
        if decoded.Malformed? {
          return Thrown(JsonException);
        }
        if decoded.Value? {
          var m := new PoetryModel(decoded.value);
          m.Reorganize();
          ThenThen(col, [m.Value()], rest);
          col := col + [m.Value()];
        }
        trim := true;
      }
      r := Then(col, Ok([]));
      assert r.value == col;
    }

    /**
     * `Create(json, authors, folder)`: the partition a manifest object describes, or null
     * when there is no object or no file name. Row authors are resolved by exact name
     * against the registry; a name not yet registered is appended as a new author.
     */
    static method Create(json: Option<map<string, Json>>, authors: seq<AuthorInfo>, folder: Folder)
      returns (info: PoetryFileInfo?, registry: seq<AuthorInfo>)
      ensures info == null <==> DecodeManifest(json).None?
      ensures info == null ==> registry == authors
      ensures info != null ==>
                fresh(info) && info.file != null && fresh(info.file)
                && info.file.name == DecodeManifest(json).value.0
                && info.file.content == folder.entries(info.file.name)
                && info.load.None? && info.cache.None?
      ensures info != null ==> IndexValid(info.poems) && Named(info.poems) == DecodeManifest(json).value.1
      ensures info != null ==> forall i :: 0 <= i < |info.poems| ==> Canonical(registry, info.poems[i].key)
      ensures |authors| <= |registry| && registry[..|authors|] == authors
      ensures forall i :: |authors| <= i < |registry| ==> fresh(registry[i])
      ensures info != null ==> forall i :: |authors| <= i < |registry| ==> NamedByRow(registry[i], info.poems, ManifestItems(json))
      ensures info != null ==> RegistersRowNames(registry, authors, ManifestItems(json))
    {
      registry := authors;
      if json.None? {
        return null, registry;
      }
      var fileName := StringField(json.value, "file");
      if IsBlank(fileName) {
        return null, registry;
      }
      var handle := new FileHandle(fileName.value, folder.entries(fileName.value), folder);
      info := new PoetryFileInfo.FromRecords(handle, None);
      var arr := ArrayField(json.value, "poetry");
      if arr.None? {
        return;
      }
      registry := info.AddRows(arr.value, authors);
    }

    /** The loop of `Create` over the manifest's `poetry` rows. */
    method AddRows(items: seq<Json>, authors: seq<AuthorInfo>) returns (registry: seq<AuthorInfo>)
      requires poems == []
      modifies this
      ensures cache == old(cache)
      ensures IndexValid(poems) && Named(poems) == DecodeRows(items)
      ensures forall i :: 0 <= i < |poems| ==> Canonical(registry, poems[i].key)
      ensures |authors| <= |registry| && registry[..|authors|] == authors
      ensures forall i :: |authors| <= i < |registry| ==> fresh(registry[i])
      ensures forall i :: |authors| <= i < |registry| ==> NamedByRow(registry[i], poems, items)
      ensures RegistersRowNames(registry, authors, items)
    {
      registry := authors;
      var k := 0;
      while k < |items|
        invariant 0 <= k <= |items|
        invariant cache == old(cache)
        invariant IndexValid(poems)
        invariant forall i :: 0 <= i < |poems| ==> Canonical(registry, poems[i].key)
        invariant Named(poems) == DecodeRows(items[..k])
        invariant |authors| <= |registry| && registry[..|authors|] == authors
        invariant forall i :: |authors| <= i < |registry| ==> fresh(registry[i])
        invariant RowsRegistered(registry, |authors|, items, k)
      {
        var registry' := AddRow(items, k, authors, registry);
        forall i | |authors| <= i < |registry'|
          ensures fresh(registry'[i])
        {
          if i < |registry| {
            assert registry'[i] == registry[i];
          } else {
            assert registry' != registry && i == |registry|;
          }
        }
        registry := registry';
        k := k + 1;
      }
      assert items[..k] == items;
      RowsRegisteredDone(poems, registry, |authors|, items);
      RowNamesAppended(registry, authors, items);
    }

    /** Row `k` of that loop: the loop's facts about rows `..k` carried to rows `..k + 1`. */
    method AddRow(items: seq<Json>, k: nat, ghost authors: seq<AuthorInfo>, registry: seq<AuthorInfo>) returns (registry': seq<AuthorInfo>)
      requires k < |items| && IndexValid(poems) && forall i :: 0 <= i < |poems| ==> Canonical(registry, poems[i].key)
      requires Named(poems) == DecodeRows(items[..k])
      requires |authors| <= |registry| && registry[..|authors|] == authors && RowsRegistered(registry, |authors|, items, k)
      modifies this
      ensures cache == old(cache)
      ensures IndexValid(poems) && forall i :: 0 <= i < |poems| ==> Canonical(registry', poems[i].key)
      ensures Named(poems) == DecodeRows(items[..k + 1])
      ensures |authors| <= |registry'| && registry'[..|authors|] == authors && RowsRegistered(registry', |authors|, items, k + 1)
      ensures registry' == registry || (|registry'| == |registry| + 1 && registry'[..|registry|] == registry && fresh(registry'[|registry|]))
    {
      assert items[..k + 1][..k] == items[..k];
      assert DecodeRows(items[..k + 1]) == DecodeItem(DecodeRows(items[..k]), items[k]);
      registry' := AddItem(items[k], registry);
      RowsRegisteredSnoc(registry, registry', |authors|, items, k);
      assert registry' != registry ==> registry'[..|registry|][..|authors|] == registry'[..|authors|];
    }

    /** One manifest row: its author resolved, then its titles added. */
    method AddItem(item: Json, registry: seq<AuthorInfo>) returns (registry': seq<AuthorInfo>)
      requires IndexValid(poems) && forall i :: 0 <= i < |poems| ==> Canonical(registry, poems[i].key)
      modifies this
      ensures cache == old(cache)
      ensures IndexValid(poems) && forall i :: 0 <= i < |poems| ==> Canonical(registry', poems[i].key)
      ensures Named(poems) == DecodeItem(old(Named(poems)), item)
      ensures registry' == registry ||
                (|registry'| == |registry| + 1 && registry'[..|registry|] == registry && fresh(registry'[|registry|])
                 && registry'[|registry|].name == ItemKey(item) && Canonical(registry', registry'[|registry|]))
      ensures ItemKey(item).Some? ==> FirstNamed(registry', ItemKey(item)).Some?
    {
      registry' := registry;
      if item.JArr? && |item.items| >= 1 {
        var a := item.items;
        var author;
        ghost var before := Named(poems);
        author, registry' := Resolve(poems, registry, StringAt(a, 0));
        assert NameOf(author) == RowKey(a);
        assert Named(poems) == before;
        AddTitles(author, a, registry');
      }
    }

    /** Elements `1..` of a manifest row, each `Add`ed under `author`. */
    method AddTitles(author: AuthorInfo?, a: seq<Json>, ghost reg: seq<AuthorInfo>)
      requires |a| >= 1
      requires IndexValid(poems) && Canonical(reg, author)
      requires forall i :: 0 <= i < |poems| ==> Canonical(reg, poems[i].key)
      modifies this
      ensures Named(poems) == AddEach(old(Named(poems)), NameOf(author), RowTitles(a))
      ensures IndexValid(poems) && forall i :: 0 <= i < |poems| ==> Canonical(reg, poems[i].key)
      ensures cache == old(cache)
    {
      ghost var before := Named(poems);
      ghost var name := NameOf(author);
      var ts := RowTitles(a);
      var i := 1;
      while i < |a|
        invariant 1 <= i <= |a|
        invariant IndexValid(poems) && cache == old(cache)
        invariant forall i :: 0 <= i < |poems| ==> Canonical(reg, poems[i].key)
        invariant Named(poems) == AddEach(before, name, ts[..i - 1])
      {
        var t := StringAt(a, i);
        assert ts[..i][..i - 1] == ts[..i - 1] && ts[..i][i - 1] == t;
        assert AddEach(before, name, ts[..i]) == AddToIndex(AddEach(before, name, ts[..i - 1]), name, t);
        AddCanonical(author, t, reg);
        i := i + 1;
      }
      assert ts[..i - 1] == ts;
    }

    /** `Add` under a canonical author, seen through names. */
    method AddCanonical(author: AuthorInfo?, title: Option<string>, ghost reg: seq<AuthorInfo>)
      requires IndexValid(poems) && Canonical(reg, author)
      requires forall i :: 0 <= i < |poems| ==> Canonical(reg, poems[i].key)
      modifies this
      ensures Named(poems) == AddToIndex(old(Named(poems)), NameOf(author), title)
      ensures IndexValid(poems) && forall i :: 0 <= i < |poems| ==> Canonical(reg, poems[i].key)
      ensures cache == old(cache)
    {
      forall r | 0 <= r < |poems|
        ensures poems[r].key == author <==> NameOf(poems[r].key) == NameOf(author)
      {
        CanonicalByName(reg, poems[r].key, author);
      }
      NamedAdd(poems, author, title);
      AddPreservesValid(poems, author, title);
      AddKeys(poems, author, title);
      Add(author, title);
    }

    /**
     * The author a manifest row names: null for a null or empty name, else the first
     * registry author with exactly that name, else a new author appended to the registry.
     */
    static method Resolve(ghost rows: seq<AuthorPoetry>, reg: seq<AuthorInfo>, name: Option<string>)
      returns (author: AuthorInfo?, reg': seq<AuthorInfo>)
      requires forall i :: 0 <= i < |rows| ==> Canonical(reg, rows[i].key)
      ensures IsNullOrEmpty(name) ==> author == null && reg' == reg
      ensures !IsNullOrEmpty(name) ==> author != null && author.name == name
      ensures !IsNullOrEmpty(name) && FirstNamed(reg, name).Some? ==> author == reg[FirstNamed(reg, name).value] && reg' == reg
      ensures !IsNullOrEmpty(name) && FirstNamed(reg, name).None? ==> fresh(author) && reg' == reg + [author]
      ensures Canonical(reg', author)
      ensures forall i :: 0 <= i < |rows| ==> Canonical(reg', rows[i].key)
    {
      reg' := reg;
      if IsNullOrEmpty(name) {
        return null, reg';
      }
      var found := FirstNamed(reg, name);
      if found.Some? {
        author := reg[found.value];
        return;
      }
      author := new AuthorInfo(name);
      reg' := reg + [author];
      FirstNamedAppend(reg, author, name);
      forall i | 0 <= i < |rows| && rows[i].key != null
        ensures Canonical(reg', rows[i].key)
      {
        FirstNamedAppend(reg, author, rows[i].key.name);
        assert reg'[FirstNamed(reg, rows[i].key.name).value] == rows[i].key;
      }
    }
  }
}
