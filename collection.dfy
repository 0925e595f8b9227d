/**
 * A corpus (`PoetryCollection`, Chinese/PoetryCollection.cs): a list of partitions and one
 * author registry shared by all of them. Searching is two-phase: the partitions whose
 * index answers the query are loaded, then the matches are taken from the caches.
 */
module Collection {
  import opened Wrappers
  import opened Text
  import opened Json
  import opened Seqs
  import opened Model
  import opened Authors
  import opened Matching
  import opened Documents
  import opened Index
  import opened Partition

  /** The partitions a list refers to. */
  function Entries(col: seq<PoetryFileInfo?>): set<PoetryFileInfo> {
    set e: PoetryFileInfo | e in col
  }

  /** The authors the indexes of a list refer to. */
  function IndexedAuthors(col: seq<PoetryFileInfo?>): set<AuthorInfo>
    reads Entries(col)
  {
    set e, a | e in Entries(col) && a in AuthorsOf(e.poems) :: a
  }

  /** `Sum(ele => ele?.Count() ?? 0)` */
  function CountOf(entries: seq<PoetryFileInfo?>): (r: nat)
    reads Entries(entries)
    ensures forall j :: 0 <= j < |entries| && entries[j] != null ==> entries[j].Count() <= r
    ensures r == 0 <==> forall j :: 0 <= j < |entries| ==> entries[j] == null || entries[j].Count() == 0
  {
    if entries == [] then 0
    else
      var n := |entries|;
      assert forall j :: 0 <= j < n - 1 ==> entries[..n - 1][j] == entries[j];
      CountOf(entries[..n - 1]) + (if entries[n - 1] == null then 0 else entries[n - 1].Count())
  }

  /** `Where(ele => ele != null).SelectMany(ele => ele.EnumerableBasicInfo())` */
  function ListingOf(entries: seq<PoetryFileInfo?>): (r: seq<BasicInfo>)
    reads Entries(entries), IndexedAuthors(entries)
    ensures forall x :: x in r <==> exists j :: 0 <= j < |entries| && entries[j] != null && x in entries[j].BasicInfos()
  {
    if entries == [] then []
    else
      var n := |entries|;
      var init := entries[..n - 1];
      assert Entries(init) <= Entries(entries);
      assert IndexedAuthors(init) <= IndexedAuthors(entries);
      var front := ListingOf(init);
      var last := if entries[n - 1] == null then [] else entries[n - 1].BasicInfos();
      ListingStep(entries, init, front, last);
      front + last
  }

  /** The listing of a list is the listing of its front followed by the last entry's. */
  lemma ListingStep(entries: seq<PoetryFileInfo?>, init: seq<PoetryFileInfo?>, front: seq<BasicInfo>, last: seq<BasicInfo>)
    requires entries != [] && init == entries[..|entries| - 1]
    requires forall x :: x in front <==> exists j :: 0 <= j < |init| && init[j] != null && x in init[j].BasicInfos()
    requires last == if entries[|entries| - 1] == null then [] else entries[|entries| - 1].BasicInfos()
    ensures forall x :: x in front + last <==> exists j :: 0 <= j < |entries| && entries[j] != null && x in entries[j].BasicInfos()
  {
    var n := |entries|;
    forall x | x in front + last
      ensures exists j :: 0 <= j < n && entries[j] != null && x in entries[j].BasicInfos()
    {
      if x in last {
        assert entries[n - 1] != null && x in entries[n - 1].BasicInfos();
      } else {
        assert x in front;
        var j :| 0 <= j < n - 1 && init[j] != null && x in init[j].BasicInfos();
        assert entries[j] == init[j];
      }
    }
    forall x | exists j :: 0 <= j < n && entries[j] != null && x in entries[j].BasicInfos()
      ensures x in front + last
    {
      var j :| 0 <= j < n && entries[j] != null && x in entries[j].BasicInfos();
      if j < n - 1 {
        assert init[j] == entries[j];
        assert x in front;
      } else {
        assert x in last;
      }
    }
  }


  /** With every index valid the listing has `Count()` entries. */
  lemma {:induction false} ListingOfLength(entries: seq<PoetryFileInfo?>)
    requires forall j :: 0 <= j < |entries| && entries[j] != null ==> entries[j].Valid()
    ensures |ListingOf(entries)| == CountOf(entries)
  {
    if entries != [] {
      var n := |entries|;
      var init := entries[..n - 1];
      assert forall j :: 0 <= j < n - 1 ==> init[j] == entries[j];
      ListingOfLength(init);
      var last := if entries[n - 1] == null then [] else entries[n - 1].BasicInfos();
      assert ListingOf(entries) == ListingOf(init) + last;
      assert CountOf(entries) == CountOf(init) + (if entries[n - 1] == null then 0 else entries[n - 1].Count());
      if entries[n - 1] != null {
        entries[n - 1].CountIsListingLength();
      }
    }
  }

  /** The count of a prefix one entry longer. */
  lemma CountSnoc(col: seq<PoetryFileInfo?>, i: nat)
    requires i < |col|
    ensures CountOf(col[..i + 1]) == CountOf(col[..i]) + (if col[i] == null then 0 else col[i].Count())
  {
    assert col[..i + 1][..i] == col[..i];
  }

  /** The count of a concatenation is the sum of the counts. */
  lemma {:induction false} CountAppend(a: seq<PoetryFileInfo?>, b: seq<PoetryFileInfo?>)
    ensures CountOf(a + b) == CountOf(a) + CountOf(b)
    decreases |b|
  {
    if b == [] {
      assert a + b == a;
    } else {
      var n := |b|;
      assert (a + b)[..|a + b| - 1] == a + b[..n - 1];
      CountAppend(a, b[..n - 1]);
    }
  }

  /** No file is the file of two entries. */
  predicate FilesDistinct(col: seq<PoetryFileInfo?>) {
    forall i, j :: 0 <= i < j < |col| && col[i] != null && col[j] != null && col[i].file != null ==> col[i].file != col[j].file
  }

  /** The files the partitions of a list come from, null entries skipped. */
  function FilesOf(col: seq<PoetryFileInfo?>): set<FileHandle?> {
    set e | e in col && e != null :: e.file
  }

  /** The listed files that exist. */
  function Existing(files: seq<FileHandle>): set<FileHandle?> {
    set i | 0 <= i < |files| && files[i].Exists() :: files[i] as FileHandle?
  }

  /** Every existing file among the first `n` listed parses. */
  ghost predicate ParsesUpTo(files: seq<FileHandle>, n: nat) {
    forall m :: 0 <= m < n && m < |files| && files[m].Exists() ==> ParseFile(files[m]).Ok?
  }

  lemma ParsesOneMore(files: seq<FileHandle>, n: nat)
    requires n < |files| && ParsesUpTo(files, n) && (files[n].Exists() ==> ParseFile(files[n]).Ok?)
    ensures ParsesUpTo(files, n + 1)
  {
  }

  /** A partition `GenerateAsync` leaves: an existing file, nothing cached, every later load indexed. */
  ghost predicate Unloaded(e: PoetryFileInfo)
    reads e, AuthorsOf(e.poems)
  {
    e.file != null && e.file.Exists() && e.cache.None? && e.Covers()
  }

  /** An entry that `RemoveAll(ele => ele.File == file)` keeps. */
  function KeepsEntry(file: FileHandle?): PoetryFileInfo? -> bool {
    (e: PoetryFileInfo?) => e != null && e.file != file
  }

  predicate IsNullEntry(e: PoetryFileInfo?) {
    e == null
  }

  /**
   * `col.RemoveAll(ele => ele.File == file)`: the entries for other files, in order. The
   * test dereferences every entry, so a null entry throws; `List<T>.RemoveAll` has then
   * compacted the entries before it and left the rest of the list in place.
   */
  function RemoveFile(entries: seq<PoetryFileInfo?>, file: FileHandle?): (r: (seq<PoetryFileInfo?>, Option<Exception>))
    ensures r.1.None? <==> forall i :: 0 <= i < |entries| ==> entries[i] != null
    ensures r.1.Some? ==> r.1 == Some(NullReferenceException) && |r.0| == |entries|
    ensures r.1.None? ==> IsSubsequence(r.0, entries)
    ensures r.1.None? ==> forall i :: 0 <= i < |r.0| ==> r.0[i] in entries && r.0[i] != null && r.0[i].file != file
    ensures r.1.None? ==> forall i :: 0 <= i < |entries| && entries[i] != null && entries[i].file != file ==> entries[i] in r.0
  {
    var keep := KeepsEntry(file);
    match FirstIndex(entries, IsNullEntry)
    case None =>
      FilterIsSubsequence(entries, keep);
      (Filter(entries, keep), None)
    case Some(k) =>
      var kept := Filter(entries[..k], keep);
      (kept + entries[|kept|..], Some(NullReferenceException))
  }

  /** With no entry for `file`, `RemoveAll` leaves the list as it was, even when it throws. */
  lemma RemoveAbsentFile(entries: seq<PoetryFileInfo?>, file: FileHandle?)
    requires forall i :: 0 <= i < |entries| && entries[i] != null ==> entries[i].file != file
    ensures RemoveFile(entries, file).0 == entries
  {
    var keep := KeepsEntry(file);
    match FirstIndex(entries, IsNullEntry)
    case None =>
      FilterAll(entries, keep);
    case Some(k) =>
      FilterAll(entries[..k], keep);
      assert entries[..k] + entries[k..] == entries;
  }

  /** Without null entries `RemoveAll` drops exactly the entries for `file`. */
  lemma RemoveFileFiles(entries: seq<PoetryFileInfo?>, file: FileHandle?)
    requires forall i :: 0 <= i < |entries| ==> entries[i] != null
    ensures FilesOf(RemoveFile(entries, file).0) == FilesOf(entries) - {file}
  {
    var rest := RemoveFile(entries, file).0;
    forall g | g in FilesOf(entries) - {file} ensures g in FilesOf(rest) {
      var e :| e in entries && e != null && e.file == g;
      assert e in rest;
    }
  }

  /** `Add` keeps files distinct: after removing the entries for its file, the new entry is the only one. */
  lemma AddKeepsFilesDistinct(entries: seq<PoetryFileInfo?>, data: PoetryFileInfo)
    requires FilesDistinct(entries) && data.file != null
    requires forall i :: 0 <= i < |entries| ==> entries[i] != null
    ensures FilesDistinct(RemoveFile(entries, data.file).0 + [data])
  {
    var rest := RemoveFile(entries, data.file).0;
    var all := rest + [data];
    forall i, j | 0 <= i < j < |all| && all[i] != null && all[j] != null && all[i].file != null
      ensures all[i].file != all[j].file
    {
      if j < |rest| {
        assert IsSubsequence(rest, entries);
        SubsequenceKeepsDistinct(rest, entries, i, j);
      } else {
        assert all[i] in rest;
      }
    }
  }

  /** Two positions of a subsequence come from two increasing positions of the original. */
  lemma {:induction false} SubsequenceKeepsDistinct(r: seq<PoetryFileInfo?>, s: seq<PoetryFileInfo?>, i: int, j: int)
    requires IsSubsequence(r, s) && FilesDistinct(s)
    requires 0 <= i < j < |r| && r[i] != null && r[j] != null && r[i].file != null
    ensures r[i].file != r[j].file
    decreases |s|
  {
    assert s != [];
    if r != [] && r[0] == s[0] && IsSubsequence(r[1..], s[1..]) {
      if i == 0 {
        SubsequenceMembers(r[1..], s[1..]);
        assert r[j] == r[1..][j - 1] && r[j] in s[1..];
        var k :| 0 <= k < |s[1..]| && s[1..][k] == r[j];
        assert s[k + 1] == r[j];
      } else {
        assert FilesDistinct(s[1..]) by {
          forall a, b | 0 <= a < b < |s[1..]| ensures s[1..][a] == s[a + 1] && s[1..][b] == s[b + 1] { }
        }
        SubsequenceKeepsDistinct(r[1..], s[1..], i - 1, j - 1);
      }
    } else {
      assert FilesDistinct(s[1..]) by {
        forall a, b | 0 <= a < b < |s[1..]| ensures s[1..][a] == s[a + 1] && s[1..][b] == s[b + 1] { }
      }
      SubsequenceKeepsDistinct(r, s[1..], i, j);
    }
  }

  // ---- the two-phase search

  /** The file tests the `SearchAsync` overloads pass to the first phase, and a caller's own. */
  datatype FileTest =
    | HasAuthor(author: AuthorInfo?)                 // `ele => ele.Any(author)`
    | HasAnyAuthor(authors: Option<seq<AuthorInfo?>>) // `ele => ele.Any(authors)`
    | HasQuery(q: Option<string>)                    // `ele => ele.Any(q)`
    | HasAnyQuery(qs: Option<seq<Option<string>>>)   // `ele => ele.Any(q)` for a query list
    | OnEntry(f: PoetryFileInfo? -> bool)            // a caller's test of the entry itself

  /** The select-all test that `LoadDataAsync(list)` stands for: it accepts every entry. */
  predicate SelectAll(e: PoetryFileInfo?) {
    true
  }

  /**
   * A present entry's answer to a test; the overloads' tests read the index only, and
   * only the query-list test can throw.
   */
  function Answer(t: FileTest, e: PoetryFileInfo): (r: Outcome<bool>)
    reads e`poems, AuthorsOf(e.poems)
    ensures r.Thrown? ==> t.HasAnyQuery? && r.error == ArgumentNullException
  {
    match t
    case HasAuthor(a) => Ok(e.AnyAuthor(a))
    case HasAnyAuthor(authors) => Ok(e.AnyAuthorIn(authors))
    case HasQuery(q) => Ok(e.AnyQuery(q))
    case HasAnyQuery(qs) => e.AnyQueryIn(qs)
    case OnEntry(f) => Ok(f(e))
  }

  /** Whether a present entry passes a test. */
  predicate Passes(t: FileTest, e: PoetryFileInfo)
    reads e`poems, AuthorsOf(e.poems)
  {
    Answer(t, e) == Ok(true)
  }

  /** What the first phase makes of one entry. */
  datatype EntryView =
    | Skipped                               // fails the test
    | Selected(outcome: Outcome<seq<Poem>>) // passes, and loading it yields `outcome`
    | Raised(error: Exception)              // the test throws, or the entry is a null the load dereferences

  /** A test's answer for one entry: it passes, it fails, or it throws. */
  datatype Verdict = Pass | Fail | Raises(error: Exception)

  function Test(e: PoetryFileInfo?, t: FileTest): Verdict
    reads e, if e != null then AuthorsOf(e.poems) else {}
  {
    if e == null then (if t.OnEntry? && !t.f(null) then Fail else Raises(NullReferenceException))
    else
      match Answer(t, e)
      case Ok(b) => if b then Pass else Fail
      case Thrown(x) => Raises(x)
  }

  /** What loading an entry would yield; a null entry has nothing to load. */
  function LoadOf(e: PoetryFileInfo?): Outcome<seq<Poem>>
    reads e
  {
    if e != null then e.LoadOutcome() else Ok([])
  }

  /** The view of an entry with that verdict and that load. */
  function ViewFrom(v: Verdict, o: Outcome<seq<Poem>>): EntryView {
    match v
    case Pass => Selected(o)
    case Fail => Skipped
    case Raises(x) => Raised(x)
  }

  function ViewOf(e: PoetryFileInfo?, t: FileTest): EntryView
    reads e, if e != null then AuthorsOf(e.poems) else {}
  {
    ViewFrom(Test(e, t), LoadOf(e))
  }

  function Views(entries: seq<PoetryFileInfo?>, t: FileTest): (r: seq<EntryView>)
    reads Entries(entries), IndexedAuthors(entries)
    ensures |r| == |entries| && forall j :: 0 <= j < |entries| ==> r[j] == ViewOf(entries[j], t)
  {
    seq(|entries|, j reads Entries(entries), IndexedAuthors(entries) requires 0 <= j < |entries| => ViewOf(entries[j], t))
  }

  /** The test's verdict on every entry of a list, in order (`list.Select(test)`). */
  function Verdicts(entries: seq<PoetryFileInfo?>, t: FileTest): (r: seq<Verdict>)
    reads Entries(entries), IndexedAuthors(entries)
    ensures |r| == |entries| && forall j :: 0 <= j < |entries| ==> r[j] == Test(entries[j], t)
  {
    seq(|entries|, j reads Entries(entries), IndexedAuthors(entries) requires 0 <= j < |entries| => Test(entries[j], t))
  }

  /** What loading each entry of a list would yield, in order. */
  ghost function Outcomes(entries: seq<PoetryFileInfo?>): (r: seq<Outcome<seq<Poem>>>)
    reads Entries(entries)
    ensures |r| == |entries| && forall j :: 0 <= j < |entries| ==> r[j] == LoadOf(entries[j])
  {
    seq(|entries|, j reads Entries(entries) requires 0 <= j < |entries| => LoadOf(entries[j]))
  }

  /** The caches of a list's entries, in order. */
  ghost function Caches(entries: seq<PoetryFileInfo?>): (r: seq<Option<seq<Poem>>>)
    reads Entries(entries)
    ensures |r| == |entries| && forall j :: 0 <= j < |entries| && entries[j] != null ==> r[j] == entries[j].cache
  {
    seq(|entries|, j reads Entries(entries) requires 0 <= j < |entries| => if entries[j] != null then entries[j].cache else None)
  }

  /**
   * The state of the first phase after its first `i` entries, against the verdicts, loads
   * and caches the list had when it began: every entry would load the same, entries that
   * are not selected keep their caches, an entry listed twice has one verdict, and the selected entries walked so far hold what
   * their load yielded.
   */
  ghost predicate Walked(entries: seq<PoetryFileInfo?>, verdicts: seq<Verdict>,
                         outs: seq<Outcome<seq<Poem>>>, caches: seq<Option<seq<Poem>>>, i: nat)
    reads Entries(entries)
  {
    |verdicts| == |entries| && |outs| == |entries| && |caches| == |entries| && i <= |entries| &&
    (forall j :: 0 <= j < |entries| && verdicts[j] == Pass ==> entries[j] != null) &&
    (forall j, k :: 0 <= j < |entries| && 0 <= k < |entries| && entries[j] == entries[k] ==> verdicts[j] == verdicts[k]) &&
    (forall j :: 0 <= j < |entries| ==> LoadOf(entries[j]) == outs[j]) &&
    (forall j :: 0 <= j < |entries| && entries[j] != null && verdicts[j] != Pass ==> entries[j].cache == caches[j]) &&
    (forall j :: 0 <= j < i && verdicts[j] == Pass ==>
       entries[j] != null && entries[j].cache.Some? && Ok(entries[j].cache.value) == outs[j]) &&
    (forall j :: i <= j < |entries| && entries[j] != null && entries[j] !in entries[..i] ==> entries[j].cache == caches[j])
  }

  /** `LoadDataAsync(list.Where(test))`: the loads in order, stopping at the first exception. */
  function Gather(views: seq<EntryView>): Outcome<seq<Poem>> {
    if views == [] then Ok([])
    else
      match views[0]
      case Skipped => Gather(views[1..])
      case Raised(x) => Thrown(x)
      case Selected(o) => if o.Thrown? then o else Then(o.value, Gather(views[1..]))
  }

  /** What one view adds to that walk: nothing, a throw, or the entry's load. */
  function ViewStep(v: EntryView): Outcome<seq<Poem>> {
    match v
    case Skipped => Ok([])
    case Raised(x) => Thrown(x)
    case Selected(o) => o
  }

  /** The walk from position `i` is the step at `i` followed by the walk from `i + 1`. */
  lemma GatherFrom(views: seq<EntryView>, i: nat)
    requires i < |views|
    ensures Gather(views[i..]) ==
            if ViewStep(views[i]).Thrown? then ViewStep(views[i]) else Then(ViewStep(views[i]).value, Gather(views[i + 1..]))
  {
    var rest := views[i..];
    assert rest[0] == views[i];
    assert rest[1..] == views[i + 1..];
    var g := Gather(views[i + 1..]);
    if g.Ok? {
      assert [] + g.value == g.value;
    }
  }

  /** One step of that walk: a throw ends it, a load extends what it has gathered. */
  lemma GatherStep(views: seq<EntryView>, i: nat, acc: seq<Poem>, o: Outcome<seq<Poem>>)
    requires i < |views| && Gather(views) == Then(acc, Gather(views[i..])) && o == ViewStep(views[i])
    ensures o.Thrown? ==> Gather(views) == o
    ensures o.Ok? ==> Gather(views) == Then(acc + o.value, Gather(views[i + 1..]))
  {
    GatherFrom(views, i);
    if o.Ok? {
      ThenThen(acc, o.value, Gather(views[i + 1..]));
    }
  }

  /** A view that makes the first phase throw. */
  predicate Fails(v: EntryView) {
    v.Raised? || (v.Selected? && v.outcome.Thrown?)
  }

  /** The position of the first view that fails, or the number of views when none does. */
  function Stop(views: seq<EntryView>): (r: nat)
    ensures r <= |views| && forall j :: 0 <= j < r ==> !Fails(views[j])
    ensures r < |views| ==> Fails(views[r])
  {
    if views == [] || Fails(views[0]) then 0 else 1 + Stop(views[1..])
  }

  /** The first phase throws exactly when some view fails, and then throws what the first failing view throws. */
  lemma {:induction false} GatherStop(views: seq<EntryView>)
    ensures Gather(views).Ok? <==> Stop(views) == |views|
    ensures Stop(views) < |views| ==> Gather(views) == ViewStep(views[Stop(views)])
  {
    if views != [] && !Fails(views[0]) {
      GatherStop(views[1..]);
      var g := Gather(views[1..]);
      if g.Ok? {
        assert Gather(views).Ok?;
      }
    }
  }

  /** The records a view contributes. */
  function Loaded(v: EntryView): seq<Poem> {
    if v.Selected? && v.outcome.Ok? then v.outcome.value else []
  }

  /** The first phase succeeds exactly when no view fails, and then yields every loaded record in order. */
  lemma {:induction false} GatherOk(views: seq<EntryView>)
    ensures Gather(views).Ok? <==> forall j :: 0 <= j < |views| ==> !Fails(views[j])
    ensures Gather(views).Ok? ==> Gather(views).value == FlattenFrom(views)
  {
    if views != [] {
      GatherOk(views[1..]);
      assert forall j :: 1 <= j < |views| ==> views[j] == views[1..][j - 1];
    }
  }

  /** The records of a sequence of views, front to back. */
  function FlattenFrom(views: seq<EntryView>): seq<Poem> {
    if views == [] then [] else Loaded(views[0]) + FlattenFrom(views[1..])
  }

  /** What the second phase reads besides the entries: the author objects the query names. */
  function TestReads(t: FileTest): set<object> {
    match t
    case HasAuthor(a) => if a == null then {} else {a}
    case HasAnyAuthor(authors) => if authors.Some? then (set a: AuthorInfo | a in authors.value) else {}
    case _ => {}
  }

  /** A `SearchCache` result that cannot throw, as the enumerated form. */
  function Enumerated(r: Option<seq<Poem>>): (o: Option<Outcome<seq<Poem>>>)
    ensures o.None? <==> r.None?
    ensures o.Some? ==> o.value == Ok(r.value)
  {
    if r.Some? then Some(Ok(r.value)) else None
  }

  /**
   * The second phase on one entry: `SearchCache` with the overload's own argument,
   * enumerated; only the query-list test can throw.
   */
  function Hits(t: FileTest, e: PoetryFileInfo): (r: Option<Outcome<seq<Poem>>>)
    requires !t.OnEntry?
    reads e, TestReads(t)
    ensures r.Some? && r.value.Thrown? ==> t.HasAnyQuery? && r.value.error == ArgumentNullException
  {
    match t
    case HasAuthor(a) => Enumerated(e.SearchCacheAuthor(a))
    case HasAnyAuthor(authors) => Enumerated(e.SearchCacheAuthors(authors))
    case HasQuery(q) => Enumerated(e.SearchCacheQuery(q))
    case HasAnyQuery(qs) => e.SearchCacheQueries(qs)
  }

  /** The second phase throws on this entry. */
  predicate HitsThrow(t: FileTest, e: PoetryFileInfo)
    requires !t.OnEntry?
    reads e, TestReads(t)
  {
    Hits(t, e).Some? && Hits(t, e).value.Thrown?
  }

  /** Each entry's enumerated `SearchCache`, in order; a null entry has none. */
  function HitsOf(entries: seq<PoetryFileInfo?>, t: FileTest): (r: seq<Option<Outcome<seq<Poem>>>>)
    requires !t.OnEntry?
    reads Entries(entries), TestReads(t)
    ensures |r| == |entries| && forall j :: 0 <= j < |entries| ==> r[j] == if entries[j] == null then None else Hits(t, entries[j])
  {
    seq(|entries|, j reads Entries(entries), TestReads(t) requires 0 <= j < |entries| =>
      if entries[j] == null then None else Hits(t, entries[j]))
  }

  /** `SelectMany(ele => ele ?? empty)` over enumerated results: their records in order, or the first exception. */
  function Concat(hs: seq<Option<Outcome<seq<Poem>>>>): Outcome<seq<Poem>> {
    if hs == [] then Ok([])
    else if hs[0].None? then Concat(hs[1..])
    else
      match hs[0].value
      case Thrown(x) => Thrown(x)
      case Ok(h) => Then(h, Concat(hs[1..]))
  }

  /** `Concat` throws exactly when some result does, and then throws the first such exception. */
  lemma {:induction false} ConcatThrow(hs: seq<Option<Outcome<seq<Poem>>>>)
    ensures Concat(hs).Thrown? <==> exists j :: 0 <= j < |hs| && hs[j].Some? && hs[j].value.Thrown?
    ensures Concat(hs).Thrown? ==> exists j :: 0 <= j < |hs| && hs[j] == Some(Concat(hs))
  {
    if hs != [] {
      ConcatThrow(hs[1..]);
      assert forall j :: 1 <= j < |hs| ==> hs[j] == hs[1..][j - 1];
    }
  }

  /** When `Concat` succeeds, its records are exactly those of the results. */
  lemma {:induction false} ConcatMembers(hs: seq<Option<Outcome<seq<Poem>>>>, p: Poem)
    ensures Concat(hs).Ok? ==> (p in Concat(hs).value <==>
              exists j :: 0 <= j < |hs| && hs[j].Some? && hs[j].value.Ok? && p in hs[j].value.value)
  {
    if hs != [] {
      ConcatMembers(hs[1..], p);
      assert forall j :: 1 <= j < |hs| ==> hs[j] == hs[1..][j - 1];
    }
  }

  /**
   * `col.Where(ele => ele != null).SelectMany(ele => ele.SearchCache(...) ?? empty)`,
   * enumerated: the entries' hits in order, or the first exception.
   */
  function CacheHits(entries: seq<PoetryFileInfo?>, t: FileTest): Outcome<seq<Poem>>
    requires !t.OnEntry?
    reads Entries(entries), TestReads(t)
  {
    Concat(HitsOf(entries, t))
  }

  /** The second phase throws exactly when it throws on some present entry. */
  lemma CacheHitsThrow(entries: seq<PoetryFileInfo?>, t: FileTest)
    requires !t.OnEntry?
    ensures CacheHits(entries, t).Thrown? <==>
              exists j :: 0 <= j < |entries| && entries[j] != null && HitsThrow(t, entries[j])
    ensures CacheHits(entries, t).Thrown? ==> t.HasAnyQuery? && CacheHits(entries, t).error == ArgumentNullException
  {
    var hs := HitsOf(entries, t);
    ConcatThrow(hs);
    if Concat(hs).Thrown? {
      var j :| 0 <= j < |hs| && hs[j] == Some(Concat(hs));
      assert Hits(t, entries[j]).value.Thrown?;
    }
  }

  /** When it does not throw, a record is a hit exactly when some entry's `SearchCache` returns it. */
  lemma CacheHitsMembers(entries: seq<PoetryFileInfo?>, t: FileTest, p: Poem)
    requires !t.OnEntry?
    ensures CacheHits(entries, t).Ok? ==> (p in CacheHits(entries, t).value <==>
              exists j :: 0 <= j < |entries| && entries[j] != null && Hits(t, entries[j]).Some? &&
                          Hits(t, entries[j]).value.Ok? && p in Hits(t, entries[j]).value.value)
  {
    var hs := HitsOf(entries, t);
    ConcatMembers(hs, p);
  }

  /** The enumerated results of a list without its first entry. */
  lemma HitsOfTail(entries: seq<PoetryFileInfo?>, t: FileTest)
    requires !t.OnEntry? && entries != []
    ensures HitsOf(entries, t)[1..] == HitsOf(entries[1..], t)
  {
  }

  /**
   * `col.SelectMany(ele => ele.SearchCache(author))`, as the author overloads write it: a
   * null entry throws, and so does an uncached one, whose `SearchCache` is null.
   */
  function CacheHitsAsWritten(entries: seq<PoetryFileInfo?>, t: FileTest): Outcome<seq<Poem>>
    requires !t.OnEntry?
    reads Entries(entries), TestReads(t)
  {
    if entries == [] then Ok([])
    else if entries[0] == null then Thrown(NullReferenceException)
    else
      match Hits(t, entries[0])
      case None => Thrown(ArgumentNullException)
      case Some(Thrown(x)) => Thrown(x)
      case Some(Ok(h)) => Then(h, CacheHitsAsWritten(entries[1..], t))
  }

  /** The entry is present and its `SearchCache` answers without throwing. */
  predicate Answers(t: FileTest, e: PoetryFileInfo?)
    requires !t.OnEntry?
    reads e, TestReads(t)
  {
    e != null && Hits(t, e).Some? && Hits(t, e).value.Ok?
  }

  /** Every entry is present and its `SearchCache` answers. */
  ghost predicate AllAnswer(entries: seq<PoetryFileInfo?>, t: FileTest)
    requires !t.OnEntry?
    reads Entries(entries), TestReads(t)
  {
    forall j :: 0 <= j < |entries| ==> Answers(t, entries[j])
  }

  /** `AllAnswer` of a list is its head's answer and `AllAnswer` of the rest. */
  lemma AllAnswerCons(entries: seq<PoetryFileInfo?>, t: FileTest)
    requires !t.OnEntry? && entries != []
    ensures AllAnswer(entries, t) <==> Answers(t, entries[0]) && AllAnswer(entries[1..], t)
  {
    var rest := entries[1..];
    if Answers(t, entries[0]) && AllAnswer(rest, t) {
      forall j | 0 <= j < |entries|
        ensures Answers(t, entries[j])
      {
        if j > 0 {
          assert entries[j] == rest[j - 1];
        }
      }
    }
    if AllAnswer(entries, t) {
      forall j | 0 <= j < |rest|
        ensures Answers(t, rest[j])
      {
        assert rest[j] == entries[j + 1];
      }
    }
  }

  /** The unguarded form succeeds exactly when every entry is present and answers. */
  lemma {:induction false} AsWrittenNeedsEveryCache(entries: seq<PoetryFileInfo?>, t: FileTest)
    requires !t.OnEntry?
    ensures CacheHitsAsWritten(entries, t).Ok? <==> AllAnswer(entries, t)
  {
    if entries != [] {
      AsWrittenNeedsEveryCache(entries[1..], t);
      AllAnswerCons(entries, t);
    }
  }

  /** When the unguarded form succeeds it returns what the guarded one does. */
  lemma {:induction false} AsWrittenAgrees(entries: seq<PoetryFileInfo?>, t: FileTest)
    requires !t.OnEntry?
    ensures CacheHitsAsWritten(entries, t).Ok? ==> CacheHitsAsWritten(entries, t) == CacheHits(entries, t)
  {
    if entries != [] && Answers(t, entries[0]) {
      AsWrittenAgrees(entries[1..], t);
      HitsOfTail(entries, t);
    }
  }

  /**
   * The input that breaks `SearchAsync(author)`: an index-only file that does not mention
   * the author is skipped by the first phase, stays uncached, and its null `SearchCache`
   * makes the second phase throw.
   */
  lemma UnmentioningFileBreaksAuthorSearch(e: PoetryFileInfo, a: AuthorInfo?)
    requires e.cache.None? && !e.AnyAuthor(a)
    ensures ViewOf(e, HasAuthor(a)) == Skipped
    ensures Gather([ViewOf(e, HasAuthor(a))]) == Ok([])
    ensures CacheHitsAsWritten([e], HasAuthor(a)) == Thrown(ArgumentNullException)
    ensures CacheHits([e], HasAuthor(a)) == Ok([])
  {
    assert [ViewOf(e, HasAuthor(a))][1..] == [];
    assert [e][1..] == [];
    var hs := HitsOf([e], HasAuthor(a));
    assert hs[0] == None && hs[1..] == [];
    assert Concat(hs) == Concat(hs[1..]) == Ok([]);
  }

  /** What a record must satisfy for the second phase to return it. */
  predicate HitMatches(t: FileTest, p: Poem)
    requires !t.OnEntry?
    reads TestReads(t)
  {
    match t
    case HasAuthor(a) => p.author == NameOf(a)
    case HasAnyAuthor(authors) => authors.Some? && p.author in NamesIn(authors.value)
    case HasQuery(q) => !IsBlank(q) && RecordMatchesQuery(p, q.value)
    case HasAnyQuery(qs) => qs.Some? && RecordMatchesQueries(p, qs.value)
  }

  /**
   * One entry's `SearchCache` returns exactly its cached records that match, unless it
   * throws, which only a query list with a null query can make it do.
   */
  lemma HitsExactly(t: FileTest, e: PoetryFileInfo, p: Poem)
    requires !t.OnEntry?
    ensures !HitsThrow(t, e) ==>
              ((Hits(t, e).Some? && p in Hits(t, e).value.value) <==> (e.cache.Some? && p in e.cache.value && HitMatches(t, p)))
  {
  }

  /** Only a query list holding a null query makes `SearchCache` throw. */
  lemma HitsThrowNeedsNull(t: FileTest, e: PoetryFileInfo)
    requires !t.OnEntry?
    ensures HitsThrow(t, e) ==> t.HasAnyQuery? && t.qs.Some? && !NullFree(t.qs.value)
  {
    if HitsThrow(t, e) {
      var i :| 0 <= i < |e.cache.value| && RecordAnswer(e.cache.value[i], t.qs.value).Thrown?;
    }
  }

  /**
   * When it does not throw, the second phase returns exactly the matching records of the
   * cached entries.
   */
  lemma CacheHitsExactly(entries: seq<PoetryFileInfo?>, t: FileTest, p: Poem)
    requires !t.OnEntry?
    ensures CacheHits(entries, t).Ok? ==> (p in CacheHits(entries, t).value <==>
              HitMatches(t, p) && exists j :: 0 <= j < |entries| && entries[j] != null && entries[j].cache.Some? && p in entries[j].cache.value)
  {
    if CacheHits(entries, t).Ok? {
      CacheHitsMembers(entries, t, p);
      CacheHitsThrow(entries, t);
      forall j | 0 <= j < |entries| && entries[j] != null
        ensures (Hits(t, entries[j]).Some? && Hits(t, entries[j]).value.Ok? && p in Hits(t, entries[j]).value.value)
            <==> (entries[j].cache.Some? && p in entries[j].cache.value && HitMatches(t, p))
      {
        assert !HitsThrow(t, entries[j]);
        HitsExactly(t, entries[j], p);
      }
    }
  }

  /** Each record a successful second phase returns matches and is cached. */
  lemma CacheHitsSound(entries: seq<PoetryFileInfo?>, t: FileTest)
    requires !t.OnEntry?
    ensures CacheHits(entries, t).Ok? ==> forall p :: p in CacheHits(entries, t).value ==>
              HitMatches(t, p) && exists j :: 0 <= j < |entries| && entries[j] != null && entries[j].cache.Some? && p in entries[j].cache.value
  {
    forall p | CacheHits(entries, t).Ok? && p in CacheHits(entries, t).value
      ensures HitMatches(t, p) && exists j :: 0 <= j < |entries| && entries[j] != null && entries[j].cache.Some? && p in entries[j].cache.value
    {
      CacheHitsExactly(entries, t, p);
    }
  }

  /**
   * A successful second phase returns every matching record of every entry whose cache
   * holds what its view loaded.
   */
  lemma CacheHitsComplete(entries: seq<PoetryFileInfo?>, t: FileTest, views: seq<EntryView>)
    requires !t.OnEntry? && |views| == |entries|
    requires forall j :: 0 <= j < |entries| && views[j].Selected? ==>
               entries[j] != null && entries[j].cache.Some? && Ok(entries[j].cache.value) == views[j].outcome
    ensures CacheHits(entries, t).Ok? ==>
              forall j, p :: (0 <= j < |entries| && views[j].Selected? && views[j].outcome.Ok? &&
                              p in views[j].outcome.value && HitMatches(t, p)) ==> p in CacheHits(entries, t).value
  {
    forall j, p | CacheHits(entries, t).Ok? && 0 <= j < |entries| && views[j].Selected? && views[j].outcome.Ok? &&
                  p in views[j].outcome.value && HitMatches(t, p)
      ensures p in CacheHits(entries, t).value
    {
      CacheHitsExactly(entries, t, p);
    }
  }

  /**
   * A partition whose index covers what it loads passes the query test for every record
   * that answers the query: the index names the record's author or files its title.
   */
  lemma CoveredRecordPasses(e: PoetryFileInfo, p: Poem, q: string)
    requires e.Covers() && p in e.LoadOutcome().value && !IsBlank(FullTitle(p))
    requires !IsBlank(Some(q)) && RecordMatchesQuery(p, q)
    ensures e.AnyQuery(Some(q))
  {
    var records := e.LoadOutcome().value;
    var k :| 0 <= k < |records| && records[k] == p;
    var j :| 0 <= j < |e.poems| && FullTitle(p).value in e.poems[j].poetry && KeyFits(e.poems[j].key, p.author);
    FiledRecordMatchesRow(Named(e.poems)[j], p, q);
  }

  /**
   * The same for a query list: the index does not reject the partition, though a null
   * query met first may make the test throw.
   */
  lemma CoveredRecordPassesQueries(e: PoetryFileInfo, p: Poem, qs: seq<Option<string>>)
    requires e.Covers() && p in e.LoadOutcome().value && !IsBlank(FullTitle(p))
    requires RecordMatchesQueries(p, qs)
    ensures e.AnyQueryIn(Some(qs)) != Ok(false)
  {
    var records := e.LoadOutcome().value;
    var k :| 0 <= k < |records| && records[k] == p;
    var j :| 0 <= j < |e.poems| && FullTitle(p).value in e.poems[j].poetry && KeyFits(e.poems[j].key, p.author);
    FiledRecordMatchesRowQueries(Named(e.poems)[j], p, qs);
    RowDecides(Named(e.poems), qs, j);
  }

  /** `handler?.Invoke(p)`: the record as a loading handler leaves it. */
  function Apply(handler: Option<Poem -> Poem>, p: Poem): Poem {
    if handler.Some? then handler.value(p) else p
  }

  /** Every record as the handler leaves it, in order. */
  function Handled(handler: Option<Poem -> Poem>, records: seq<Poem>): (r: seq<Poem>)
    ensures |r| == |records| && forall i :: 0 <= i < |records| ==> r[i] == Apply(handler, records[i])
  {
    seq(|records|, i requires 0 <= i < |records| => Apply(handler, records[i]))
  }

  /** Without a handler the records stay as they are. */
  lemma NoHandler(records: seq<Poem>)
    ensures Handled(None, records) == records
  {
  }

  /** The full titles of records, in order. */
  function FullTitles(records: seq<Poem>): seq<Option<string>> {
    Map(FullTitle, records)
  }

  /**
   * An index that files every record's full title under a key that fits its author, and
   * nothing else, covers the records and is sound for them.
   */
  lemma IndexFromKeys(rows: seq<AuthorPoetry>, keys: seq<AuthorInfo?>, records: seq<Poem>)
    requires |keys| == |records|
    requires Filed(rows, keys, FullTitles(records)) && Sourced(rows, keys, FullTitles(records))
    requires forall m :: 0 <= m < |keys| ==> KeyFits(keys[m], records[m].author)
    ensures IndexCovers(rows, records) && IndexSound(rows, records)
  {
    var titles := FullTitles(records);
    forall k | 0 <= k < |records| && !IsBlank(FullTitle(records[k]))
      ensures exists j :: 0 <= j < |rows| && FullTitle(records[k]).value in rows[j].poetry && KeyFits(rows[j].key, records[k].author)
    {
      assert titles[k] == FullTitle(records[k]);
      var j := RowOf(rows, keys[k]);
      assert j.Some?;
      assert FullTitle(records[k]).value in rows[j.value].poetry;
    }
    forall j, t | 0 <= j < |rows| && 0 <= t < |rows[j].poetry|
      ensures FiledFrom(rows, records, j, t)
    {
      var m := SourcedEntry(rows, keys, titles, j, t);
      assert FullTitle(records[m]) == titles[m];
      assert KeyFits(rows[j].key, records[m].author);
    }
  }

  /**
   * What indexing records one by one yields: a valid index that covers the records, is
   * sound for them, and keys rows by registry authors only.
   */
  lemma IndexedRecords(rows: seq<AuthorPoetry>, keys: seq<AuthorInfo?>, records: seq<Poem>, reg: seq<AuthorInfo>)
    requires |keys| == |records| && rows == AddAll([], keys, FullTitles(records))
    requires forall m :: 0 <= m < |keys| ==> KeyFits(keys[m], records[m].author) && (keys[m] == null || keys[m] in reg)
    ensures IndexValid(rows) && IndexCovers(rows, records) && IndexSound(rows, records)
    ensures forall i :: 0 <= i < |rows| ==> rows[i].key == null || rows[i].key in reg
  {
    AddAllFacts(keys, FullTitles(records));
    IndexFromKeys(rows, keys, records);
    forall i | 0 <= i < |rows|
      ensures rows[i].key == null || rows[i].key in reg
    {
      assert TitlesValid(rows[i].poetry);
      var m := SourcedEntry(rows, keys, FullTitles(records), i, 0);
    }
  }

  /** Each merged author sits at its recorded registry position and has a name. */
  ghost predicate Placed(reg: seq<AuthorInfo>, list: seq<AuthorInfo>, at: seq<nat>)
    reads list
  {
    |list| == |at| && forall i :: 0 <= i < |list| ==> at[i] < |reg| && reg[at[i]] == list[i] && !IsNullOrEmpty(list[i].name)
  }

  /** One more author placed at position `t`. */
  lemma PlacedSnoc(reg: seq<AuthorInfo>, list: seq<AuthorInfo>, at: seq<nat>, a: AuthorInfo, t: nat)
    requires Placed(reg, list, at) && t < |reg| && reg[t] == a && !IsNullOrEmpty(a.name)
    ensures Placed(reg, list + [a], at + [t])
  {
    var grown, placed := list + [a], at + [t];
    forall i | 0 <= i < |grown|
      ensures placed[i] < |reg| && reg[placed[i]] == grown[i] && !IsNullOrEmpty(grown[i].name)
    {
      if i < |list| {
        assert grown[i] == list[i] && placed[i] == at[i];
      }
    }
  }

  /** The authors that had an id keep it. */
  ghost predicate IdsKept(reg: seq<AuthorInfo>, ids: seq<Option<string>>)
    reads reg
  {
    |ids| <= |reg| && forall i :: 0 <= i < |ids| && !IsNullOrEmpty(ids[i]) ==> reg[i].id == ids[i]
  }

  /** Registry authors from `from` on have non-blank names that no earlier author shares ignoring case. */
  ghost predicate NamesDistinctFrom(reg: seq<AuthorInfo>, from: nat)
    reads reg
  {
    forall k, m :: from <= k < |reg| && 0 <= m < k ==> NameDiffers(reg, k, m)
  }

  /** The first position of `names` holding `name` ignoring case. */
  function FirstFitting(names: seq<Option<string>>, name: string): Option<nat> {
    if names == [] then None
    else if EqualsIgnoreCase(name, names[0]) then Some(0)
    else
      match FirstFitting(names[1..], name)
      case None => None
      case Some(k) => Some(k + 1)
  }

  /** That position is the one holding `name` with no earlier position holding it. */
  lemma {:induction false} FirstFittingIs(names: seq<Option<string>>, name: string, i: nat)
    requires i < |names| && EqualsIgnoreCase(name, names[i]) && forall j :: 0 <= j < i ==> !EqualsIgnoreCase(name, names[j])
    ensures FirstFitting(names, name) == Some(i)
  {
    if i > 0 {
      assert !EqualsIgnoreCase(name, names[0]);
      assert forall j :: 0 <= j < i - 1 ==> names[1..][j] == names[j + 1];
      FirstFittingIs(names[1..], name, i - 1);
    }
  }

  /**
   * `key` is null, or the first author of registry `reg`, whose names are `names`, with the
   * name `author` ignoring case: the author `GetAuthorByName(author)?.FirstOrDefault()` picks.
   */
  predicate FirstFit(reg: seq<AuthorInfo>, names: seq<Option<string>>, key: AuthorInfo?, author: Option<string>) {
    key != null ==>
      !IsBlank(author) && FirstFitting(names, author.value).Some? && FirstFitting(names, author.value).value < |reg|
      && reg[FirstFitting(names, author.value).value] == key
  }

  /** Record `p` names author `a` ignoring case, so resolving it yields `a` once `a` is registered. */
  predicate ResolvesTo(p: Poem, a: AuthorInfo)
    reads a
  {
    !IsBlank(p.author) && EqualsIgnoreCase(p.author.value, a.name)
  }

  /**
   * A registered author came from the records: one of them bears its name, and it keys a
   * row of the index as soon as one record it resolves to has a non-blank full title.
   */
  ghost predicate RegisteredFor(a: AuthorInfo, rows: seq<AuthorPoetry>, records: seq<Poem>)
    reads a
  {
    (exists m :: 0 <= m < |records| && records[m].author == a.name)
    && forall m :: 0 <= m < |records| && ResolvesTo(records[m], a) && !IsBlank(FullTitle(records[m])) ==> RowOf(rows, a).Some?
  }

  /** Every record author that no author before `from` matches ignoring case is matched by one from `from` on. */
  ghost predicate RegistersUnmatched(reg: seq<AuthorInfo>, from: nat, records: seq<Poem>)
    reads reg
  {
    forall m :: 0 <= m < |records| && !IsBlank(records[m].author) && !MatchedBefore(reg, from, records[m].author.value) ==>
      exists k :: from <= k < |reg| && ResolvesTo(records[m], reg[k])
  }

  /** Some author before `from` has `name` ignoring case. */
  ghost predicate MatchedBefore(reg: seq<AuthorInfo>, from: nat, name: string)
    reads reg
  {
    exists n :: 0 <= n < from && n < |reg| && EqualsIgnoreCase(name, reg[n].name)
  }

  /** Each author appended from `from` on is the key of a record of its exact name. */
  ghost predicate AppendedFromKeys(reg: seq<AuthorInfo>, from: nat, keys: seq<AuthorInfo?>, records: seq<Poem>)
    requires |keys| <= |records|
    reads reg
  {
    forall k :: from <= k < |reg| ==> exists m :: 0 <= m < |keys| && keys[m] == reg[k] && records[m].author == reg[k].name
  }

  /**
   * Indexing records under resolved keys, where every appended author is the key of a
   * record of its exact name: each appended author is registered for the records.
   */
  lemma IndexedRegistry(rows: seq<AuthorPoetry>, keys: seq<AuthorInfo?>, records: seq<Poem>, reg: seq<AuthorInfo>, from: nat)
    requires |keys| == |records| && rows == AddAll([], keys, FullTitles(records))
    requires forall m :: 0 <= m < |keys| ==> KeyFits(keys[m], records[m].author) && (keys[m] == null || keys[m] in reg)
    requires from <= |reg| && NamesDistinctFrom(reg, from) && AppendedFromKeys(reg, from, keys, records)
    ensures forall k :: from <= k < |reg| ==> RegisteredFor(reg[k], rows, records)
  {
    AddAllFacts(keys, FullTitles(records));
    forall k | from <= k < |reg|
      ensures RegisteredFor(reg[k], rows, records)
    {
      forall m | 0 <= m < |records| && ResolvesTo(records[m], reg[k]) && !IsBlank(FullTitle(records[m]))
        ensures RowOf(rows, reg[k]).Some?
      {
        KeyIsAppended(keys, records, reg, from, k, m);
        assert FullTitles(records)[m] == FullTitle(records[m]);
      }
    }
  }

  /** A record resolving to an appended author was filed under that author. */
  lemma KeyIsAppended(keys: seq<AuthorInfo?>, records: seq<Poem>, reg: seq<AuthorInfo>, from: nat, k: nat, m: nat)
    requires |keys| == |records| && m < |keys| && from <= k < |reg|
    requires KeyFits(keys[m], records[m].author) && keys[m] != null && keys[m] in reg
    requires NamesDistinctFrom(reg, from) && ResolvesTo(records[m], reg[k])
    ensures keys[m] == reg[k]
  {
    var n :| 0 <= n < |reg| && reg[n] == keys[m];
    assert n < k ==> NameDiffers(reg, k, n);
    assert k < n ==> NameDiffers(reg, n, k);
  }

  /** Every record author is some registered key's name ignoring case, so the unmatched ones are appended. */
  lemma IndexedUnmatched(keys: seq<AuthorInfo?>, records: seq<Poem>, reg: seq<AuthorInfo>, from: nat)
    requires |keys| == |records|
    requires forall m :: 0 <= m < |keys| ==> KeyFits(keys[m], records[m].author) && (keys[m] == null || keys[m] in reg)
    ensures RegistersUnmatched(reg, from, records)
  {
    forall m | 0 <= m < |records| && !IsBlank(records[m].author) && !MatchedBefore(reg, from, records[m].author.value)
      ensures exists k :: from <= k < |reg| && ResolvesTo(records[m], reg[k])
    {
      var n :| 0 <= n < |reg| && reg[n] == keys[m];
      assert ResolvesTo(records[m], reg[n]);
    }
  }

  /** Author `k` has a non-blank name that author `m` does not share ignoring case. */
  ghost predicate NameDiffers(reg: seq<AuthorInfo>, k: nat, m: nat)
    requires m < |reg| && k < |reg|
    reads reg
  {
    !IsBlank(reg[k].name) && !EqualsIgnoreCase(reg[k].name.value, reg[m].name)
  }

  /** Appending an author whose name no earlier author shares keeps the new names distinct. */
  lemma DistinctSnoc(reg: seq<AuthorInfo>, a: AuthorInfo, from: nat)
    requires NamesDistinctFrom(reg, from) && from <= |reg|
    requires !IsBlank(a.name) && forall m :: 0 <= m < |reg| ==> !EqualsIgnoreCase(a.name.value, reg[m].name)
    ensures NamesDistinctFrom(reg + [a], from)
  {
    var all := reg + [a];
    forall k, m | from <= k < |all| && 0 <= m < k
      ensures NameDiffers(all, k, m)
    {
      if k < |reg| {
        assert NameDiffers(reg, k, m);
        assert all[k] == reg[k] && all[m] == reg[m];
      } else {
        assert all[k] == a && all[m] == reg[m];
      }
    }
  }

  // ---- the author side-file

  /** `a ?? b` */
  function Coalesce(a: Option<string>, b: Option<string>): Option<string> {
    if a.Some? then a else b
  }

  /** `intro ?? desc ?? introduction ?? description` */
  function IntroductionOf(fields: map<string, Json>): Option<string> {
    Coalesce(StringField(fields, "intro"), Coalesce(StringField(fields, "desc"),
      Coalesce(StringField(fields, "introduction"), StringField(fields, "description"))))
  }

  /** `json.TryGetStringValue("name")?.Trim()` */
  function EntryName(fields: map<string, Json>): Option<string> {
    TrimOpt(StringField(fields, "name"))
  }

  /** The side-file items that are merged: objects whose name is not empty once trimmed, that is, not blank. */
  predicate Accepted(item: Json) {
    item.JObj? && !IsBlank(StringField(item.fields, "name"))
  }

  /**
   * The id an author keeps after a merge, as written: the guard reads
   * `IsNullOrEmpty(author.Id) && !!IsNullOrEmpty(id)`, so the id is copied only when
   * both are empty and a supplied id is never recorded.
   */
  function MergedIdAsWritten(current: Option<string>, supplied: Option<string>): (r: Option<string>)
    ensures !IsNullOrEmpty(current) ==> r == current
    ensures IsNullOrEmpty(current) ==> IsNullOrEmpty(r)
  {
    if IsNullOrEmpty(current) && IsNullOrEmpty(supplied) then supplied else current
  }

  /** As written an author has an id after the merge exactly when it had one before. */
  lemma AsWrittenNeverRecordsAnId(current: Option<string>, supplied: Option<string>)
    ensures IsNullOrEmpty(MergedIdAsWritten(current, supplied)) <==> IsNullOrEmpty(current)
    ensures MergedIdAsWritten(None, Some("1")) == None
  {
  }

  /** The evidently intended merge: a supplied id is copied to an author that has none. */
  function MergedId(current: Option<string>, supplied: Option<string>): (r: Option<string>)
    ensures !IsNullOrEmpty(current) ==> r == current
    ensures !IsNullOrEmpty(supplied) ==> !IsNullOrEmpty(r)
    ensures IsNullOrEmpty(current) && !IsNullOrEmpty(supplied) ==> r == supplied
  {
    if IsNullOrEmpty(current) && !IsNullOrEmpty(supplied) then supplied else current
  }

  // ---- the side-file merge on values

  /** What one author holds: its id, name and introduction. */
  datatype Held = Held(id: Option<string>, name: Option<string>, introduction: Option<string>)

  /** The values a registry holds, position by position. */
  function HeldBy(reg: seq<AuthorInfo>): (r: seq<Held>)
    reads reg
    ensures |r| == |reg| && forall i :: 0 <= i < |reg| ==> r[i] == Held(reg[i].id, reg[i].name, reg[i].introduction)
  {
    seq(|reg|, i reads reg requires 0 <= i < |reg| => Held(reg[i].id, reg[i].name, reg[i].introduction))
  }

  /** No author object sits at two positions of a registry. */
  ghost predicate AuthorsDistinct(reg: seq<AuthorInfo>) {
    forall i, j :: 0 <= i < j < |reg| ==> reg[i] != reg[j]
  }

  /** `json.TryGetStringValue("id")?.Trim()` */
  function EntryId(fields: map<string, Json>): Option<string> {
    TrimOpt(StringField(fields, "id"))
  }

  /**
   * The position an item with `name` and `id` merges into: the first author with that
   * id when the id is not empty and one has it, else the first author with that name,
   * else a new position at the end.
   */
  function Target(vs: seq<Held>, name: Option<string>, id: Option<string>): (t: nat)
    ensures t <= |vs|
    ensures !IsNullOrEmpty(id) && (exists j :: 0 <= j < |vs| && vs[j].id == id) ==>
      t < |vs| && vs[t].id == id && forall j :: 0 <= j < t ==> vs[j].id != id
    ensures (IsNullOrEmpty(id) || forall j :: 0 <= j < |vs| ==> vs[j].id != id) ==>
      (t < |vs| ==> vs[t].name == name && forall j :: 0 <= j < t ==> vs[j].name != name)
    ensures (IsNullOrEmpty(id) || forall j :: 0 <= j < |vs| ==> vs[j].id != id) ==>
      (t == |vs| <==> forall j :: 0 <= j < |vs| ==> vs[j].name != name)
  {
    var byId := if IsNullOrEmpty(id) then None else FirstIndex(vs, (h: Held) => h.id == id);
    if byId.Some? then byId.value
    else
      match FirstIndex(vs, (h: Held) => h.name == name)
      case Some(j) => j
      case None => |vs|
  }

  /** The id merge, as written or as evidently intended. */
  function IdMerge(asWritten: bool, current: Option<string>, supplied: Option<string>): (r: Option<string>)
    ensures !IsNullOrEmpty(current) ==> r == current
    ensures asWritten ==> (IsNullOrEmpty(r) <==> IsNullOrEmpty(current))
    ensures !asWritten ==> (IsNullOrEmpty(r) <==> IsNullOrEmpty(current) && IsNullOrEmpty(supplied))
  {
    if asWritten then MergedIdAsWritten(current, supplied) else MergedId(current, supplied)
  }

  /**
   * One merge into `vs` of an author named `name`, with `id` and `intro`: its target's
   * name and introduction are overwritten and the ids merged; the target comes back too.
   */
  function MergeInto(vs: seq<Held>, name: string, id: Option<string>, intro: Option<string>, asWritten: bool): (r: (seq<Held>, nat))
    ensures r.1 == Target(vs, Some(name), id)
    ensures |r.0| == |vs| + (if r.1 == |vs| then 1 else 0) && r.1 < |r.0|
    ensures r.0[r.1].name == Some(name) && r.0[r.1].introduction == intro
    ensures r.0[r.1].id == IdMerge(asWritten, if r.1 < |vs| then vs[r.1].id else None, id)
    ensures forall j :: 0 <= j < |vs| && j != r.1 ==> r.0[j] == vs[j]
  {
    var t := Target(vs, Some(name), id);
    var current := if t < |vs| then vs[t].id else None;
    var h := Held(IdMerge(asWritten, current, id), Some(name), intro);
    (if t < |vs| then vs[t := h] else vs + [h], t)
  }

  /** One side-file item merged into `vs`: an accepted item is merged, anything else is skipped. */
  function MergeOne(vs: seq<Held>, item: Json, asWritten: bool): (r: (seq<Held>, Option<nat>))
    ensures r.1.Some? <==> Accepted(item)
    ensures r.1.None? ==> r.0 == vs
    ensures r.1.Some? ==> |r.0| == |vs| + (if r.1.value == |vs| then 1 else 0) && r.1.value < |r.0|
    ensures r.1.Some? ==> r.0[r.1.value].name == EntryName(item.fields) && r.0[r.1.value].introduction == IntroductionOf(item.fields)
    ensures r.1.Some? ==> forall j :: 0 <= j < |vs| && j != r.1.value ==> r.0[j] == vs[j]
    ensures r.1.Some? ==> r.0[r.1.value].id == IdMerge(asWritten, if r.1.value < |vs| then vs[r.1.value].id else None, EntryId(item.fields))
  {
    if !Accepted(item) then (vs, None)
    else
      var m := MergeInto(vs, EntryName(item.fields).value, EntryId(item.fields), IntroductionOf(item.fields), asWritten);
      (m.0, Some(m.1))
  }

  /**
   * The loop of `LoadAuthorsFileAsync` on values: every item merged in order; the final
   * values and, for each accepted item, the position it merged into.
   */
  function MergeAll(vs: seq<Held>, items: seq<Json>, asWritten: bool): (r: (seq<Held>, seq<nat>))
    ensures |vs| <= |r.0|
    decreases |items|
  {
    if items == [] then (vs, [])
    else
      var prev := MergeAll(vs, items[..|items| - 1], asWritten);
      var step := MergeOne(prev.0, items[|items| - 1], asWritten);
      if step.1.None? then prev else (step.0, prev.1 + [step.1.value])
  }

  /** The merge reports one position per accepted item. */
  lemma {:induction false} MergeAllCount(vs: seq<Held>, items: seq<Json>, asWritten: bool)
    ensures |MergeAll(vs, items, asWritten).1| == CountWhere(items, Accepted)
    decreases |items|
  {
    if items != [] {
      MergeAllCount(vs, items[..|items| - 1], asWritten);
    }
  }

  /**
   * Every position the merge reports holds a named author, a position no item merged into
   * keeps its value, and every position past the start was merged into.
   */
  lemma {:induction false} MergeAllShape(vs: seq<Held>, items: seq<Json>, asWritten: bool)
    ensures var r := MergeAll(vs, items, asWritten);
      && (forall i :: 0 <= i < |r.1| ==> r.1[i] < |r.0| && !IsNullOrEmpty(r.0[r.1[i]].name))
      && (forall j :: 0 <= j < |vs| && (forall i :: 0 <= i < |r.1| ==> r.1[i] != j) ==> r.0[j] == vs[j])
      && (forall j :: |vs| <= j < |r.0| ==> j in r.1)
    decreases |items|
  {
    if items != [] {
      var prev := MergeAll(vs, items[..|items| - 1], asWritten);
      var item := items[|items| - 1];
      MergeAllShape(vs, items[..|items| - 1], asWritten);
      MergeAllLast(vs, items, asWritten);
      var step := MergeOne(prev.0, item, asWritten);
      if step.1.Some? {
        TrimEmptyIffBlank(StringField(item.fields, "name").value);
        MergeSnoc(vs, prev, step.0, step.1.value);
      }
    }
  }

  /** The shape `MergeAll` promises survives one more merge at position `t`. */
  lemma MergeSnoc(vs: seq<Held>, prev: (seq<Held>, seq<nat>), next: seq<Held>, t: nat)
    requires |vs| <= |prev.0|
    requires forall i :: 0 <= i < |prev.1| ==> prev.1[i] < |prev.0| && !IsNullOrEmpty(prev.0[prev.1[i]].name)
    requires forall j :: 0 <= j < |vs| && (forall i :: 0 <= i < |prev.1| ==> prev.1[i] != j) ==> prev.0[j] == vs[j]
    requires forall j :: |vs| <= j < |prev.0| ==> j in prev.1
    requires |next| == |prev.0| + (if t == |prev.0| then 1 else 0) && t < |next|
    requires !IsNullOrEmpty(next[t].name)
    requires forall j :: 0 <= j < |prev.0| && j != t ==> next[j] == prev.0[j]
    ensures var r: (seq<Held>, seq<nat>) := (next, prev.1 + [t]);
      && (forall i :: 0 <= i < |r.1| ==> r.1[i] < |r.0| && !IsNullOrEmpty(r.0[r.1[i]].name))
      && (forall j :: 0 <= j < |vs| && (forall i :: 0 <= i < |r.1| ==> r.1[i] != j) ==> r.0[j] == vs[j])
      && (forall j :: |vs| <= j < |r.0| ==> j in r.1)
  {
    var r: (seq<Held>, seq<nat>) := (next, prev.1 + [t]);
    assert forall i :: 0 <= i < |prev.1| ==> r.1[i] == prev.1[i];
    assert r.1[|prev.1|] == t;
    forall i | 0 <= i < |r.1|
      ensures r.1[i] < |r.0| && !IsNullOrEmpty(r.0[r.1[i]].name)
    {
      if i < |prev.1| && prev.1[i] != t {
        assert r.0[prev.1[i]] == prev.0[prev.1[i]];
      }
    }
    forall j | 0 <= j < |vs| && (forall i :: 0 <= i < |r.1| ==> r.1[i] != j)
      ensures r.0[j] == vs[j]
    {
      assert j != t;
      assert forall i :: 0 <= i < |prev.1| ==> prev.1[i] != j;
    }
    forall j | |vs| <= j < |r.0|
      ensures j in r.1
    {
      if j != t {
        assert j < |prev.0| && j in prev.1;
      }
    }
  }

  /** The fold over one more item, from the fold over the items before it. */
  function MergeNext(vs: seq<Held>, items: seq<Json>, k: nat, fold: (seq<Held>, seq<nat>)): (r: (seq<Held>, seq<nat>))
    requires k < |items| && fold == MergeAll(vs, items[..k], false)
    ensures r == MergeAll(vs, items[..k + 1], false)
    ensures var step := MergeOne(fold.0, items[k], false);
      r == if step.1.None? then fold else (step.0, fold.1 + [step.1.value])
  {
    assert items[..k + 1][..k] == items[..k];
    MergeAllLast(vs, items[..k + 1], false);
    var step := MergeOne(fold.0, items[k], false);
    if step.1.None? then fold else (step.0, fold.1 + [step.1.value])
  }

  lemma MergeAllLast(vs: seq<Held>, items: seq<Json>, asWritten: bool)
    requires items != []
    ensures var prev := MergeAll(vs, items[..|items| - 1], asWritten);
      var step := MergeOne(prev.0, items[|items| - 1], asWritten);
      MergeAll(vs, items, asWritten) == if step.1.None? then prev else (step.0, prev.1 + [step.1.value])
  {
  }

  /** The values of a registry's prefix are the prefix of its values. */
  lemma HeldPrefix(reg: seq<AuthorInfo>, now: seq<AuthorInfo>)
    requires |reg| <= |now| && now[..|reg|] == reg
    ensures forall j :: 0 <= j < |reg| ==> HeldBy(now)[j] == HeldBy(reg)[j]
  {
    forall j | 0 <= j < |reg|
      ensures HeldBy(now)[j] == HeldBy(reg)[j]
    {
      assert now[j] == now[..|reg|][j];
    }
  }

  /** `MergeInto` overwrites the target's values, an appended blank author's when the target is new. */
  lemma MergeIntoUpdates(before: seq<Held>, mid: seq<Held>, t: nat, name: string, id: Option<string>, intro: Option<string>)
    requires t == Target(before, Some(name), id)
    requires if t < |before| then mid == before else mid == before + [Held(None, None, None)]
    ensures var current := if t < |before| then before[t].id else None;
      MergeInto(before, name, id, intro, false).0 == mid[t := Held(MergedId(current, id), Some(name), intro)]
  {
  }

  /** Two value lists that agree at `t` and agree with `before` elsewhere are equal. */
  lemma SameHeld(now: seq<Held>, after: seq<Held>, before: seq<Held>, t: nat)
    requires |now| == |after| && t < |now| && now[t] == after[t]
    requires |before| <= |now| <= |before| + 1 && (|now| == |before| || t == |before|)
    requires forall j :: 0 <= j < |before| && j != t ==> now[j] == before[j] && after[j] == before[j]
    ensures now == after
  {
    forall j | 0 <= j < |now|
      ensures now[j] == after[j]
    {
      if j != t {
        assert j < |before|;
      }
    }
  }

  /** A registry that stays as it is or gains an author not already in it stays distinct. */
  lemma DistinctGrow(reg: seq<AuthorInfo>, now: seq<AuthorInfo>, author: AuthorInfo)
    requires AuthorsDistinct(reg)
    requires now == reg || (now == reg + [author] && author !in reg)
    ensures AuthorsDistinct(now)
  {
    if now != reg {
      forall i, j | 0 <= i < j < |now|
        ensures now[i] != now[j]
      {
        assert now[i] == reg[i];
        if j < |reg| {
          assert now[j] == reg[j];
        }
      }
    }
  }

  /**
   * The target of the merge on a registry's values is where `Locate` finds its author:
   * the first author with the id, else the first with the name, else a new position.
   */
  lemma TargetInRegistry(reg: seq<AuthorInfo>, name: string, id: Option<string>)
    ensures var t := Target(HeldBy(reg), Some(name), id);
      && (!IsNullOrEmpty(id) && FirstWithId(reg, id).Some? ==> t == FirstWithId(reg, id).value)
      && ((IsNullOrEmpty(id) || FirstWithId(reg, id).None?) && FirstNamed(reg, Some(name)).Some? ==> t == FirstNamed(reg, Some(name)).value)
      && ((IsNullOrEmpty(id) || FirstWithId(reg, id).None?) && FirstNamed(reg, Some(name)).None? ==> t == |reg|)
  {
    var vs := HeldBy(reg);
    var t := Target(vs, Some(name), id);
    if !IsNullOrEmpty(id) && FirstWithId(reg, id).Some? {
      var f := FirstWithId(reg, id).value;
      assert vs[f].id == id;
    } else if FirstNamed(reg, Some(name)).Some? {
      var f := FirstNamed(reg, Some(name)).value;
      assert vs[f].name == Some(name);
    }
  }

  /** As written, merging side-files into a registry without ids leaves every author without an id. */
  lemma {:induction false} AsWrittenKeepsIdsEmpty(vs: seq<Held>, items: seq<Json>)
    requires forall j :: 0 <= j < |vs| ==> IsNullOrEmpty(vs[j].id)
    ensures var r := MergeAll(vs, items, true).0; forall j :: 0 <= j < |r| ==> IsNullOrEmpty(r[j].id)
    decreases |items|
  {
    if items != [] {
      var prev := MergeAll(vs, items[..|items| - 1], true);
      AsWrittenKeepsIdsEmpty(vs, items[..|items| - 1]);
      var step := MergeOne(prev.0, items[|items| - 1], true);
      MergeAllLast(vs, items, true);
      assert forall j :: 0 <= j < |step.0| ==> IsNullOrEmpty(step.0[j].id) by {
        if step.1.Some? {
          var t := step.1.value;
          assert forall j :: 0 <= j < |prev.0| && j != t ==> step.0[j] == prev.0[j];
        }
      }
    }
  }

  /** With the corrected guard, one item with an id gives an author without an id that id. */
  lemma MergeOneRecordsId(vs: seq<Held>, item: Json)
    requires forall j :: 0 <= j < |vs| ==> IsNullOrEmpty(vs[j].id)
    requires Accepted(item) && !IsBlank(EntryId(item.fields))
    ensures var step := MergeOne(vs, item, false);
      step.1.Some? && step.0[step.1.value].id == EntryId(item.fields)
  {
    var step := MergeOne(vs, item, false);
    var t := step.1.value;
    var current := if t < |vs| then vs[t].id else None;
    if t < |vs| {
      assert current == vs[t].id;
    }
    assert !IsNullOrEmpty(EntryId(item.fields));
  }

  /** With the corrected guard, one item with an id gives a registry without ids an author with that id. */
  lemma CorrectedRecordsId(vs: seq<Held>, item: Json)
    requires forall j :: 0 <= j < |vs| ==> IsNullOrEmpty(vs[j].id)
    requires Accepted(item) && !IsBlank(EntryId(item.fields))
    ensures var r := MergeAll(vs, [item], false);
      |r.1| == 1 && r.0[r.1[0]].id == EntryId(item.fields)
  {
    MergeOneRecordsId(vs, item);
    assert [item][..0] == [];
    MergeAllLast(vs, [item], false);
    var step := MergeOne(vs, item, false);
    var prev := MergeAll(vs, [], false);
    assert prev.1 == [];
    assert MergeAll(vs, [item], false) == (step.0, prev.1 + [step.1.value]);
  }

  /** `Where(ele => ele != null)` */
  predicate IsPresent(e: PoetryFileInfo?) {
    e != null
  }

  /** `json as JsonObject` */
  function ObjectOf(j: Json): Option<map<string, Json>> {
    if j.JObj? then Some(j.fields) else None
  }

  /** Every key of an index is null or the registry's first author of its name. */
  ghost predicate KeysCanonical(reg: seq<AuthorInfo>, rows: seq<AuthorPoetry>)
    reads reg, AuthorsOf(rows)
  {
    forall j :: 0 <= j < |rows| ==> Canonical(reg, rows[j].key)
  }

  /** Authors appended to a registry keep every canonical index canonical. */
  lemma KeysCanonicalExtends(reg: seq<AuthorInfo>, more: seq<AuthorInfo>, rows: seq<AuthorPoetry>)
    requires KeysCanonical(reg, rows)
    ensures KeysCanonical(reg + more, rows)
  {
    forall j | 0 <= j < |rows|
      ensures Canonical(reg + more, rows[j].key)
    {
      CanonicalExtends(reg, more, rows[j].key);
    }
  }

  /** What `Create` reads from one manifest item. */
  function ManifestOf(item: Json): Option<(string, seq<NamedRow>)> {
    DecodeManifest(ObjectOf(item))
  }

  /** The partition `Create` makes of one manifest item: index-only, over the named file of `folder`. */
  ghost predicate Restored(e: PoetryFileInfo, m: Option<(string, seq<NamedRow>)>, folder: Folder)
    reads e, AuthorsOf(e.poems)
  {
    m.Some? && e.file != null && e.file.name == m.value.0 && e.file.content == folder.entries(e.file.name)
    && e.load.None? && e.cache.None? && IndexValid(e.poems) && Named(e.poems) == m.value.1
  }

  class PoetryCollection {
    var col: seq<PoetryFileInfo?>
    var authors: seq<AuthorInfo>

    constructor ()
      ensures col == [] && authors == []
    {
      col := [];
      authors := [];
    }

    /** A corpus over given entries and registry. */
    constructor Of(entries: seq<PoetryFileInfo?>, registry: seq<AuthorInfo>)
      ensures col == entries && authors == registry
    {
      col := entries;
      authors := registry;
    }

    /** Every index author is null or the registry's first author of its name. */
    ghost predicate RegistryCanonical()
      reads this, Entries(col), IndexedAuthors(col), authors
    {
      forall i :: 0 <= i < |col| && col[i] != null ==> KeysCanonical(authors, col[i].poems)
    }

    /** The entries restore a manifest array item by item, null where an item names no file. */
    ghost predicate Rebuilds(items: seq<Json>, folder: Folder)
      reads this, Entries(col), IndexedAuthors(col)
    {
      |col| == |items|
      && (forall i :: 0 <= i < |col| ==> (col[i] == null <==> DecodeManifest(ObjectOf(items[i])).None?))
      && (forall i :: 0 <= i < |col| && col[i] != null ==> Restored(col[i], ManifestOf(items[i]), folder))
    }

    /**
     * `ParseAsync(file)`: null for a missing file; otherwise one `Create` per array item,
     * all resolving authors against the new corpus's registry.
     */
    static method Parse(file: FileHandle?) returns (r: Outcome<PoetryCollection?>)
      ensures file == null || !file.Exists() ==> r == Ok(null)
      ensures file != null && file.Exists() && file.content.value.asTree.Malformed? ==> r == Thrown(JsonException)
      ensures file != null && file.Exists() && file.content.value.asTree.Null? ==> r == Thrown(NullReferenceException)
      ensures file != null && file.Exists() && file.content.value.asTree.Value? ==>
                r.Ok? && r.value != null && fresh(r.value)
                && r.value.Rebuilds(file.content.value.asTree.value, file.directory) && r.value.RegistryCanonical()
      ensures r.Ok? && r.value != null ==> forall i :: 0 <= i < |r.value.authors| ==> fresh(r.value.authors[i])
    {
      if file == null || !file.Exists() {
        return Ok(null);
      }
      var items: seq<Json>;
      match file.content.value.asTree {
        case Malformed =>
          return Thrown(JsonException);
        case Null =>
          return Thrown(NullReferenceException);
        case Value(v) =>
          items := v;
      }
      var entries, registry := CreateAll(items, file.directory);
      var menu := new PoetryCollection.Of(entries, registry);
      return Ok(menu);
    }

    /** The loop of `ParseAsync`: `Create` on every item, threading the registry through. */
    static method CreateAll(items: seq<Json>, folder: Folder) returns (entries: seq<PoetryFileInfo?>, registry: seq<AuthorInfo>)
      ensures |entries| == |items|
      ensures forall i :: 0 <= i < |items| ==> (entries[i] == null <==> ManifestOf(items[i]).None?)
      ensures forall i :: 0 <= i < |items| && entries[i] != null ==> Restored(entries[i], ManifestOf(items[i]), folder)
      ensures forall i :: 0 <= i < |items| && entries[i] != null ==> KeysCanonical(registry, entries[i].poems)
      ensures forall i :: 0 <= i < |registry| ==> fresh(registry[i])
    {
      entries := [];
      registry := [];
      var k := 0;
      while k < |items|
        invariant 0 <= k <= |items| && |entries| == k
        invariant Built(items, folder, entries, registry)
        invariant forall i :: 0 <= i < |registry| ==> fresh(registry[i])
      {
        entries, registry := CreateStep(items, folder, entries, registry);
        k := k + 1;
      }
    }

    /** One item of that loop: its partition appended, the registry grown by fresh authors only. */
    static method CreateStep(items: seq<Json>, folder: Folder, entries: seq<PoetryFileInfo?>, registry: seq<AuthorInfo>)
      returns (grown: seq<PoetryFileInfo?>, reg: seq<AuthorInfo>)
      requires |entries| < |items| && Built(items, folder, entries, registry)
      ensures |grown| == |entries| + 1 && Built(items, folder, grown, reg)
      ensures |registry| <= |reg| && reg[..|registry|] == registry
      ensures forall i :: |registry| <= i < |reg| ==> fresh(reg[i])
    {
      var k := |entries|;
      var info;
      info, reg := PoetryFileInfo.Create(ObjectOf(items[k]), registry, folder);
      assert registry + reg[|registry|..] == reg;
      forall i | 0 <= i < k && entries[i] != null
        ensures KeysCanonical(reg, entries[i].poems)
      {
        KeysCanonicalExtends(registry, reg[|registry|..], entries[i].poems);
      }
      assert info != null ==> KeysCanonical(reg, info.poems);
      assert info != null ==> Restored(info, ManifestOf(items[k]), folder);
      grown := entries + [info];
      forall i | 0 <= i <= k
        ensures grown[i] == null <==> ManifestOf(items[i]).None?
        ensures grown[i] != null ==> Restored(grown[i], ManifestOf(items[i]), folder)
        ensures grown[i] != null ==> KeysCanonical(reg, grown[i].poems)
      {
        if i < k {
          assert grown[i] == entries[i];
        }
      }
    }

    /** The loop's bookkeeping: each item so far has its partition, resolved against `registry`. */
    static ghost predicate Built(items: seq<Json>, folder: Folder, entries: seq<PoetryFileInfo?>, registry: seq<AuthorInfo>)
      reads Entries(entries), IndexedAuthors(entries), registry
    {
      |entries| <= |items|
      && (forall i :: 0 <= i < |entries| ==> (entries[i] == null <==> ManifestOf(items[i]).None?))
      && (forall i :: 0 <= i < |entries| && entries[i] != null ==> Restored(entries[i], ManifestOf(items[i]), folder))
      && (forall i :: 0 <= i < |entries| && entries[i] != null ==> KeysCanonical(registry, entries[i].poems))
    }

    /**
     * `LoadDataAsync(list.Where(test))`: walks the list once, testing each entry and loading
     * it when it passes (`Where` is lazy, so tests and loads interleave). The first
     * exception stops the walk: the entries selected before it hold their loads, and the
     * failing entry and those after it that were not walked already keep their caches.
     */
    static method LoadDataWhere(list: seq<PoetryFileInfo?>, t: FileTest) returns (r: Outcome<seq<Poem>>)
      modifies Entries(list)`cache
      ensures r == Gather(old(Views(list, t)))
      ensures forall e :: e in Entries(list) ==> e.poems == old(e.poems) && e.LoadOutcome() == old(e.LoadOutcome())
      ensures forall j :: 0 <= j < |list| && list[j] != null && old(Views(list, t))[j].Skipped? ==> list[j].cache == old(list[j].cache)
      ensures r.Ok? <==> Stop(old(Views(list, t))) == |list|
      ensures forall j :: 0 <= j < Stop(old(Views(list, t))) && old(Views(list, t))[j].Selected? ==>
                list[j] != null && list[j].cache.Some? && Ok(list[j].cache.value) == old(list[j].LoadOutcome())
      ensures forall j :: Stop(old(Views(list, t))) <= j < |list| && list[j] != null && list[j] !in list[..Stop(old(Views(list, t)))] ==>
                list[j].cache == old(list[j].cache)
    {
      var verdicts := Verdicts(list, t);
      ghost var views, outs, caches := Views(list, t), Outcomes(list), Caches(list);
      assert forall j :: 0 <= j < |list| ==> views[j] == ViewFrom(verdicts[j], outs[j]);
      r := Walk(list, verdicts, views, outs, caches);
      GatherStop(views);
    }

    /** The loop of that walk, against the verdicts, views, loads and caches it began with; it stops at the first failing view. */
    static method Walk(list: seq<PoetryFileInfo?>, verdicts: seq<Verdict>, ghost views: seq<EntryView>,
                       ghost outs: seq<Outcome<seq<Poem>>>, ghost caches: seq<Option<seq<Poem>>>)
      returns (r: Outcome<seq<Poem>>)
      requires Walked(list, verdicts, outs, caches, 0)
      requires |views| == |list| && forall j :: 0 <= j < |list| ==> views[j] == ViewFrom(verdicts[j], outs[j])
      modifies Entries(list)`cache
      ensures r == Gather(views) && Walked(list, verdicts, outs, caches, Stop(views))
    {
      var acc: seq<Poem> := [];
      var i := 0;
      assert views[0..] == views;
      assert Gather(views).Ok? ==> [] + Gather(views).value == Gather(views).value;
      assert Then([], Gather(views)) == Gather(views);
      while i < |list|
        invariant Walked(list, verdicts, outs, caches, i)
        invariant Gather(views) == Then(acc, Gather(views[i..]))
        invariant i <= Stop(views)
      {
        var o := WalkStep(list, verdicts, outs, caches, i);
        GatherStep(views, i, acc, o);
        assert o.Thrown? <==> Fails(views[i]);
        if o.Thrown? {
          assert Stop(views) == i;
          return o;
        }
        acc := acc + o.value;
        i := i + 1;
      }
      assert views[i..] == [];
      assert acc + [] == acc;
      assert Stop(views) == |list|;
      r := Ok(acc);
    }

    /** One entry of that walk: skipped, a throw, or loaded with its cache filled. */
    static method WalkStep(list: seq<PoetryFileInfo?>, verdicts: seq<Verdict>, ghost outs: seq<Outcome<seq<Poem>>>,
                           ghost caches: seq<Option<seq<Poem>>>, i: nat)
      returns (o: Outcome<seq<Poem>>)
      requires i < |list| && Walked(list, verdicts, outs, caches, i)
      modifies (if list[i] != null then {list[i]} else {})`cache
      ensures o == ViewStep(ViewFrom(verdicts[i], outs[i]))
      ensures o.Ok? ==> Walked(list, verdicts, outs, caches, i + 1)
      ensures o.Thrown? ==> Walked(list, verdicts, outs, caches, i)
    {
      if verdicts[i] == Fail {
        assert Walked(list, verdicts, outs, caches, i + 1);
        return Ok([]);
      }
      if verdicts[i].Raises? {
        return Thrown(verdicts[i].error);
      }
      o := LoadSelected(list, verdicts, outs, caches, i);
    }

    /** The load of a selected entry of that walk, which fills its cache unless the load throws. */
    static method LoadSelected(list: seq<PoetryFileInfo?>, verdicts: seq<Verdict>, ghost outs: seq<Outcome<seq<Poem>>>,
                               ghost caches: seq<Option<seq<Poem>>>, i: nat)
      returns (o: Outcome<seq<Poem>>)
      requires i < |list| && Walked(list, verdicts, outs, caches, i) && verdicts[i] == Pass
      modifies (if list[i] != null then {list[i]} else {})`cache
      ensures o == outs[i]
      ensures Walked(list, verdicts, outs, caches, if o.Ok? then i + 1 else i)
    {
      var e: PoetryFileInfo := list[i];
      o := e.LoadData();
      forall j | 0 <= j < |list|
        ensures LoadOf(list[j]) == outs[j]
      {
        if list[j] != e {
          assert list[j] != null ==> list[j].cache == old(list[j].cache);
        }
      }
      forall j | 0 <= j < |list| && list[j] == e
        ensures verdicts[j] == Pass && outs[j] == outs[i]
      {
        assert verdicts[j] == verdicts[i];
      }
      forall j | 0 <= j < |list| && list[j] != null && verdicts[j] != Pass
        ensures list[j].cache == caches[j]
      {
        assert list[j] != e;
      }
      ghost var upto := if o.Ok? then i + 1 else i;
      forall j | 0 <= j < upto && verdicts[j] == Pass
        ensures list[j] != null && list[j].cache.Some? && Ok(list[j].cache.value) == outs[j]
      {
        if list[j] != e {
          assert list[j].cache == old(list[j].cache);
        }
      }
    }

    /** `SearchAsync(predicate)`: nothing for a null predicate, else the loads of the entries it accepts. */
    method SearchWhere(test: Option<PoetryFileInfo? -> bool>) returns (r: Outcome<seq<Poem>>)
      modifies Entries(col)
      ensures test.None? ==> r == Ok([])
      ensures test.Some? ==> r == Gather(old(Views(col, OnEntry(test.value))))
      ensures forall e :: e in Entries(col) ==> e.poems == old(e.poems) && e.LoadOutcome() == old(e.LoadOutcome())
      ensures test.None? ==> forall e :: e in Entries(col) ==> e.cache == old(e.cache)
      ensures test.Some? ==> forall j :: 0 <= j < |col| && col[j] != null && old(Views(col, OnEntry(test.value)))[j].Skipped? ==>
                col[j].cache == old(col[j].cache)
      ensures test.Some? ==> (r.Ok? <==> Stop(old(Views(col, OnEntry(test.value)))) == |col|)
      ensures test.Some? ==> forall j :: 0 <= j < Stop(old(Views(col, OnEntry(test.value)))) && old(Views(col, OnEntry(test.value)))[j].Selected? ==>
                col[j] != null && col[j].cache.Some? && Ok(col[j].cache.value) == old(col[j].LoadOutcome())
      ensures test.Some? ==> forall j ::
                Stop(old(Views(col, OnEntry(test.value)))) <= j < |col| && col[j] != null && col[j] !in col[..Stop(old(Views(col, OnEntry(test.value))))]
                ==> col[j].cache == old(col[j].cache)
    {
      if test.None? {
        return Ok([]);
      }
      r := LoadDataWhere(col, OnEntry(test.value));
    }

    /** The static `LoadDataAsync(list)`: every entry loaded in order; a null entry throws. */
    static method LoadData(list: seq<PoetryFileInfo?>) returns (r: Outcome<seq<Poem>>)
      modifies Entries(list)
      ensures r == Gather(old(Views(list, OnEntry(SelectAll))))
      ensures r.Ok? <==> forall j :: 0 <= j < |list| ==> list[j] != null && old(list[j].LoadOutcome()).Ok?
      ensures r.Ok? ==> forall j :: 0 <= j < |list| ==> list[j] != null && list[j].cache.Some? && Ok(list[j].cache.value) == old(list[j].LoadOutcome())
      ensures forall e :: e in Entries(list) ==> e.poems == old(e.poems) && e.LoadOutcome() == old(e.LoadOutcome())
      ensures forall j :: 0 <= j < Stop(old(Views(list, OnEntry(SelectAll)))) ==>
                list[j] != null && list[j].cache.Some? && Ok(list[j].cache.value) == old(list[j].LoadOutcome())
      ensures forall j ::
                Stop(old(Views(list, OnEntry(SelectAll)))) <= j < |list| && list[j] != null && list[j] !in list[..Stop(old(Views(list, OnEntry(SelectAll))))]
                ==> list[j].cache == old(list[j].cache)
    {
      ghost var views := Views(list, OnEntry(SelectAll));
      GatherOk(views);
      assert forall j :: 0 <= j < |list| ==> (Fails(views[j]) <==> list[j] == null || list[j].LoadOutcome().Thrown?);
      r := LoadDataWhere(list, OnEntry(SelectAll));
    }

    /**
     * The shape of the four index-driven overloads: load the entries whose index answers
     * the test, then gather `SearchCache` of every present entry. Each record it returns
     * matches and is cached; each matching record of an entry the test did not reject is returned.
     */
    method SearchCached(t: FileTest) returns (r: Outcome<seq<Poem>>)
      requires !t.OnEntry?
      modifies Entries(col)
      ensures old(Gather(Views(col, t))).Thrown? ==> r == old(Gather(Views(col, t)))
      ensures old(Gather(Views(col, t))).Ok? ==> r == CacheHits(col, t)
      ensures old(Gather(Views(col, t))).Ok? && r.Thrown? ==> t.HasAnyQuery? && r.error == ArgumentNullException
      ensures r.Ok? ==> forall p :: p in r.value ==>
                HitMatches(t, p) && exists j :: 0 <= j < |col| && col[j] != null && col[j].cache.Some? && p in col[j].cache.value
      ensures r.Ok? ==> forall j, p :: (0 <= j < |col| && col[j] != null && old(Answer(t, col[j])) != Ok(false)
                && old(col[j].LoadOutcome()).Ok? && p in old(col[j].LoadOutcome()).value && HitMatches(t, p)) ==> p in r.value
      ensures forall e :: e in Entries(col) ==> e.poems == old(e.poems) && e.LoadOutcome() == old(e.LoadOutcome())
    {
      ghost var views := Views(col, t);
      assert forall j :: 0 <= j < |col| && col[j] != null && Answer(t, col[j]) != Ok(false) && !Fails(views[j]) ==>
               views[j] == Selected(col[j].LoadOutcome());
      r := LoadDataWhere(col, t);
      if r.Thrown? {
        return;
      }
      r := CacheHits(col, t);
      if r.Thrown? {
        CacheHitsThrow(col, t);
        return;
      }
      CacheHitsSound(col, t);
      CacheHitsComplete(col, t, views);
    }

    /** `SearchAsync(q)`: the matching records of the files whose index answers `q`. */
    method SearchQuery(q: Option<string>) returns (r: Outcome<seq<Poem>>)
      modifies Entries(col)
      ensures old(Gather(Views(col, HasQuery(q)))).Thrown? ==> r == old(Gather(Views(col, HasQuery(q))))
      ensures old(Gather(Views(col, HasQuery(q)))).Ok? ==> r == CacheHits(col, HasQuery(q)) && r.Ok?
      ensures r.Ok? ==> forall p :: p in r.value ==>
                !IsBlank(q) && RecordMatchesQuery(p, q.value)
                && exists j :: 0 <= j < |col| && col[j] != null && col[j].cache.Some? && p in col[j].cache.value
      ensures r.Ok? ==> forall j, p :: (0 <= j < |col| && col[j] != null && old(col[j].Covers()) && p in old(col[j].LoadOutcome()).value
                && !IsBlank(FullTitle(p)) && !IsBlank(q) && RecordMatchesQuery(p, q.value)) ==> p in r.value
    {
      forall j, p | 0 <= j < |col| && col[j] != null && col[j].Covers() && p in col[j].LoadOutcome().value
          && !IsBlank(FullTitle(p)) && !IsBlank(q) && RecordMatchesQuery(p, q.value)
        ensures Passes(HasQuery(q), col[j])
      {
        CoveredRecordPasses(col[j], p, q.value);
      }
      r := SearchCached(HasQuery(q));
    }

    /**
     * `SearchAsync(q)` for a query list: the records matching any query, from the files
     * whose index does. A null query can make either phase throw `ArgumentNullException`.
     */
    method SearchQueries(qs: Option<seq<Option<string>>>) returns (r: Outcome<seq<Poem>>)
      modifies Entries(col)
      ensures old(Gather(Views(col, HasAnyQuery(qs)))).Thrown? ==> r == old(Gather(Views(col, HasAnyQuery(qs))))
      ensures old(Gather(Views(col, HasAnyQuery(qs)))).Ok? ==> r == CacheHits(col, HasAnyQuery(qs))
      ensures old(Gather(Views(col, HasAnyQuery(qs)))).Ok? && r.Thrown? ==>
                r.error == ArgumentNullException && qs.Some? && !NullFree(qs.value)
      ensures r.Ok? ==> forall p :: p in r.value ==>
                qs.Some? && RecordMatchesQueries(p, qs.value)
                && exists j :: 0 <= j < |col| && col[j] != null && col[j].cache.Some? && p in col[j].cache.value
      ensures r.Ok? ==> forall j, p :: (0 <= j < |col| && col[j] != null && old(col[j].Covers()) && p in old(col[j].LoadOutcome()).value
                && !IsBlank(FullTitle(p)) && qs.Some? && RecordMatchesQueries(p, qs.value)) ==> p in r.value
    {
      forall j, p | 0 <= j < |col| && col[j] != null && col[j].Covers() && p in col[j].LoadOutcome().value
          && !IsBlank(FullTitle(p)) && qs.Some? && RecordMatchesQueries(p, qs.value)
        ensures Answer(HasAnyQuery(qs), col[j]) != Ok(false)
      {
        CoveredRecordPassesQueries(col[j], p, qs.value);
      }
      r := SearchCached(HasAnyQuery(qs));
      QueriesThrow(col, qs);
      if r.Ok? {
        forall p | p in r.value
          ensures qs.Some? && RecordMatchesQueries(p, qs.value)
        {
          assert HitMatches(HasAnyQuery(qs), p);
        }
        forall j, p | 0 <= j < |col| && col[j] != null && old(col[j].Covers()) && p in old(col[j].LoadOutcome()).value
            && !IsBlank(FullTitle(p)) && qs.Some? && RecordMatchesQueries(p, qs.value)
          ensures p in r.value
        {
          assert old(Answer(HasAnyQuery(qs), col[j])) != Ok(false) && HitMatches(HasAnyQuery(qs), p);
        }
      }
    }

    /** The second phase of a query-list search throws only for a null query, and then `ArgumentNullException`. */
    static lemma QueriesThrow(entries: seq<PoetryFileInfo?>, qs: Option<seq<Option<string>>>)
      ensures CacheHits(entries, HasAnyQuery(qs)).Thrown? ==>
                CacheHits(entries, HasAnyQuery(qs)).error == ArgumentNullException && qs.Some? && !NullFree(qs.value)
    {
      CacheHitsThrow(entries, HasAnyQuery(qs));
      if CacheHits(entries, HasAnyQuery(qs)).Thrown? {
        var j :| 0 <= j < |entries| && entries[j] != null && HitsThrow(HasAnyQuery(qs), entries[j]);
        HitsThrowNeedsNull(HasAnyQuery(qs), entries[j]);
      }
    }

    /**
     * `SearchAsync(author)` with the second phase guarded as the query overloads guard it:
     * the records by the author from the files whose index lists the author.
     */
    method SearchAuthor(a: AuthorInfo?) returns (r: Outcome<seq<Poem>>)
      modifies Entries(col)
      ensures old(Gather(Views(col, HasAuthor(a)))).Thrown? ==> r == old(Gather(Views(col, HasAuthor(a))))
      ensures old(Gather(Views(col, HasAuthor(a)))).Ok? ==> r == CacheHits(col, HasAuthor(a)) && r.Ok?
      ensures r.Ok? ==> forall p :: p in r.value ==>
                p.author == NameOf(a) && exists j :: 0 <= j < |col| && col[j] != null && col[j].cache.Some? && p in col[j].cache.value
      ensures r.Ok? ==> forall j, p :: (0 <= j < |col| && col[j] != null && old(col[j].AnyAuthor(a)) && old(col[j].LoadOutcome()).Ok?
                && p in old(col[j].LoadOutcome()).value && p.author == NameOf(a)) ==> p in r.value
    {
      r := SearchCached(HasAuthor(a));
    }

    /** `SearchAsync(author)` as written: the second phase fails on a null or an uncached entry. */
    method SearchAuthorAsWritten(a: AuthorInfo?) returns (r: Outcome<seq<Poem>>)
      modifies Entries(col)
      ensures old(Gather(Views(col, HasAuthor(a)))).Thrown? ==> r == old(Gather(Views(col, HasAuthor(a))))
      ensures old(Gather(Views(col, HasAuthor(a)))).Ok? ==> r == CacheHitsAsWritten(col, HasAuthor(a))
    {
      r := LoadDataWhere(col, HasAuthor(a));
      if r.Thrown? {
        return;
      }
      r := CacheHitsAsWritten(col, HasAuthor(a));
    }

    /** `SearchAsync(authors)` with the second phase guarded: the records by any listed author. */
    method SearchAuthors(authors: Option<seq<AuthorInfo?>>) returns (r: Outcome<seq<Poem>>)
      modifies Entries(col)
      ensures old(Gather(Views(col, HasAnyAuthor(authors)))).Thrown? ==> r == old(Gather(Views(col, HasAnyAuthor(authors))))
      ensures old(Gather(Views(col, HasAnyAuthor(authors)))).Ok? ==> r == CacheHits(col, HasAnyAuthor(authors)) && r.Ok?
      ensures r.Ok? ==> forall p :: p in r.value ==>
                authors.Some? && p.author in NamesIn(authors.value)
                && exists j :: 0 <= j < |col| && col[j] != null && col[j].cache.Some? && p in col[j].cache.value
      ensures r.Ok? ==> forall j, p :: (0 <= j < |col| && col[j] != null && old(col[j].AnyAuthorIn(authors)) && old(col[j].LoadOutcome()).Ok?
                && p in old(col[j].LoadOutcome()).value && authors.Some? && p.author in NamesIn(authors.value)) ==> p in r.value
    {
      r := SearchCached(HasAnyAuthor(authors));
    }

    /** `SearchAsync(authors)` as written: the second phase fails on a null or an uncached entry, or a null list. */
    method SearchAuthorsAsWritten(authors: Option<seq<AuthorInfo?>>) returns (r: Outcome<seq<Poem>>)
      modifies Entries(col)
      ensures old(Gather(Views(col, HasAnyAuthor(authors)))).Thrown? ==> r == old(Gather(Views(col, HasAnyAuthor(authors))))
      ensures old(Gather(Views(col, HasAnyAuthor(authors)))).Ok? ==> r == CacheHitsAsWritten(col, HasAnyAuthor(authors))
    {
      r := LoadDataWhere(col, HasAnyAuthor(authors));
      if r.Thrown? {
        return;
      }
      r := CacheHitsAsWritten(col, HasAnyAuthor(authors));
    }

    /**
     * `LoadFileAsync(file, handler, cache)`: drops the entries for `file`, parses it, runs
     * the handler on every record and indexes the records by full title under their
     * authors, registering each author name not yet known ignoring case. The new
     * partition keeps the records only when `cache` is set.
     */
    method LoadFile(file: FileHandle?, handler: Option<Poem -> Poem>, cache: bool) returns (r: Outcome<PoetryFileInfo?>)
      modifies this
      ensures file == null || !file.Exists() ==> r == Ok(null) && col == old(col) && authors == old(authors)
      ensures file != null && file.Exists() && RemoveFile(old(col), file).1.Some? ==>
                r == Thrown(NullReferenceException) && col == RemoveFile(old(col), file).0 && authors == old(authors)
      ensures file != null && file.Exists() && RemoveFile(old(col), file).1.None? && ParseFile(file).Thrown? ==>
                r == Thrown(ParseFile(file).error) && col == RemoveFile(old(col), file).0 && authors == old(authors)
      ensures file != null && file.Exists() && RemoveFile(old(col), file).1.None? && ParseFile(file).Ok? ==>
                r.Ok? && r.value != null && fresh(r.value) && col == RemoveFile(old(col), file).0 + [r.value]
                && r.value.file == file && r.value.load.None?
                && r.value.cache == (if cache then Some(Handled(handler, ParseFile(file).value)) else None)
                && IndexValid(r.value.poems)
                && IndexCovers(r.value.poems, Handled(handler, ParseFile(file).value))
                && IndexSound(r.value.poems, Handled(handler, ParseFile(file).value))
                && (cache || handler.None? ==> r.value.Covers())
                && (forall i :: 0 <= i < |r.value.poems| ==> r.value.poems[i].key == null || r.value.poems[i].key in authors)
                && (forall k :: |old(authors)| <= k < |authors| ==>
                      RegisteredFor(authors[k], r.value.poems, Handled(handler, ParseFile(file).value)))
                && RegistersUnmatched(authors, |old(authors)|, Handled(handler, ParseFile(file).value))
      ensures |old(authors)| <= |authors| && authors[..|old(authors)|] == old(authors)
      ensures forall i :: |old(authors)| <= i < |authors| ==> fresh(authors[i])
      ensures NamesDistinctFrom(authors, |old(authors)|)
    {
      if file == null || !file.Exists() {
        return Ok(null);
      }
      var removed := RemoveFile(col, file);
      col := removed.0;
      if removed.1.Some? {
        return Thrown(removed.1.value);
      }
      var c := PoetryFileInfo.Parse(file);
      if c.Thrown? {
        return Thrown(c.error);
      }
      var info := IndexFile(file, c.value, handler, cache);
      label Indexed:
      col := col + [info];
      assert forall a :: a in AuthorsOf(info.poems) ==> unchanged@Indexed(a);
      return Ok(info);
    }

    /** `LoadFileAsync(file, cache)`: the load without a record handler, which leaves every load covered. */
    method LoadFileUnhandled(file: FileHandle?, cache: bool) returns (r: Outcome<PoetryFileInfo?>)
      modifies this
      ensures file == null || !file.Exists() ==> r == Ok(null) && col == old(col)
      ensures file != null && file.Exists() && RemoveFile(old(col), file).1.Some? ==>
                r == Thrown(NullReferenceException) && col == RemoveFile(old(col), file).0
      ensures file != null && file.Exists() && RemoveFile(old(col), file).1.None? && ParseFile(file).Thrown? ==>
                r == Thrown(ParseFile(file).error) && col == RemoveFile(old(col), file).0
      ensures file != null && file.Exists() && RemoveFile(old(col), file).1.None? && ParseFile(file).Ok? ==>
                r.Ok? && r.value != null && fresh(r.value) && col == RemoveFile(old(col), file).0 + [r.value]
                && r.value.file == file && r.value.cache == (if cache then Some(ParseFile(file).value) else None)
                && r.value.Covers()
      ensures |old(authors)| <= |authors| && authors[..|old(authors)|] == old(authors)
      ensures forall i :: |old(authors)| <= i < |authors| ==> fresh(authors[i])
    {
      r := LoadFile(file, None, cache);
      if r.Ok? && r.value != null {
        NoHandler(ParseFile(file).value);
      }
    }

    /** The partition `LoadFileAsync` builds from a file's parsed records. */
    method IndexFile(file: FileHandle, records: seq<Poem>, handler: Option<Poem -> Poem>, cache: bool) returns (info: PoetryFileInfo)
      requires file.Exists() && ParseFile(file) == Ok(records)
      modifies this
      ensures fresh(info) && info.file == file && info.load.None?
      ensures info.cache == (if cache then Some(Handled(handler, records)) else None)
      ensures IndexValid(info.poems) && IndexCovers(info.poems, Handled(handler, records)) && IndexSound(info.poems, Handled(handler, records))
      ensures cache || handler.None? ==> info.Covers()
      ensures forall i :: 0 <= i < |info.poems| ==> info.poems[i].key == null || info.poems[i].key in authors
      ensures col == old(col)
      ensures |old(authors)| <= |authors| && authors[..|old(authors)|] == old(authors)
      ensures forall i :: |old(authors)| <= i < |authors| ==> fresh(authors[i])
      ensures NamesDistinctFrom(authors, |old(authors)|)
      ensures forall k :: |old(authors)| <= k < |authors| ==> RegisteredFor(authors[k], info.poems, Handled(handler, records))
      ensures RegistersUnmatched(authors, |old(authors)|, Handled(handler, records))
    {
      var handled := Handled(handler, records);
      info := new PoetryFileInfo.FromRecords(file, if cache then Some(handled) else None);
      ghost var keys := IndexRecords(info, handled);
      IndexedRecords(info.poems, keys, handled, authors);
      IndexedRegistry(info.poems, keys, handled, authors, |old(authors)|);
      IndexedUnmatched(keys, handled, authors, |old(authors)|);
      if !cache && handler.None? {
        NoHandler(records);
      }
    }

    /**
     * `GetAuthorByName(name)?.FirstOrDefault()`, registering `new AuthorInfo { Name = name }`
     * when no author has the name ignoring case; null for a blank name.
     */
    method ResolveAuthor(name: Option<string>) returns (author: AuthorInfo?)
      modifies this
      ensures KeyFits(author, name) && (author == null || author in authors)
      ensures FirstFit(authors, Names(authors), author, name)
      ensures col == old(col)
      ensures authors == old(authors) ||
                (author != null && fresh(author) && authors == old(authors) + [author] && author.name == name
                 && !IsBlank(name) && forall m :: 0 <= m < |old(authors)| ==> !EqualsIgnoreCase(name.value, old(authors)[m].name))
    {
      if IsBlank(name) {
        return null;
      }
      var found := GetAuthorByName(name);
      if |found.value| > 0 {
        author := found.value[0];
        FirstFound(name);
      } else {
        author := Register(name);
      }
    }

    /** A fresh author of the given name appended to the registry, for a name no author has ignoring case. */
    method Register(name: Option<string>) returns (author: AuthorInfo)
      requires !IsBlank(name) && forall m :: 0 <= m < |authors| ==> !EqualsIgnoreCase(name.value, authors[m].name)
      modifies this
      ensures fresh(author) && authors == old(authors) + [author] && author.name == name
      ensures FirstFit(authors, Names(authors), author, name) && KeyFits(author, name)
      ensures col == old(col)
    {
      author := new AuthorInfo(name);
      FirstFitAppended(authors, author, name);
      authors := authors + [author];
    }

    /** The first author `GetAuthorByName` lists is the first fit of the name. */
    lemma FirstFound(name: Option<string>)
      requires !IsBlank(name) && |GetAuthorByName(name).value| > 0
      ensures FirstFit(authors, Names(authors), GetAuthorByName(name).value[0], name)
    {
      var flags := NameFlags(name.value);
      FlaggedHead(flags);
      FirstFittingIs(Names(authors), name.value, Flagged(flags)[0]);
    }

    /** An author appended for a name no registry author has is that name's first fit. */
    static lemma FirstFitAppended(reg: seq<AuthorInfo>, a: AuthorInfo, name: Option<string>)
      requires !IsBlank(name) && a.name == name && forall m :: 0 <= m < |reg| ==> !EqualsIgnoreCase(name.value, reg[m].name)
      ensures FirstFit(reg + [a], Names(reg + [a]), a, name)
    {
      var all := reg + [a];
      assert all[|reg|] == a;
      assert forall j :: 0 <= j < |reg| ==> all[j] == reg[j];
      FirstFittingIs(Names(all), name.value, |reg|);
    }

    /** The loop of `LoadFileAsync`: each record's full title filed under its resolved author. */
    method IndexRecords(info: PoetryFileInfo, records: seq<Poem>) returns (ghost keys: seq<AuthorInfo?>)
      requires info.poems == []
      modifies this, info
      ensures |keys| == |records| && info.poems == AddAll([], keys, FullTitles(records)) && info.cache == old(info.cache)
      ensures forall m :: 0 <= m < |keys| ==> KeyFits(keys[m], records[m].author) && (keys[m] == null || keys[m] in authors)
      ensures col == old(col)
      ensures |old(authors)| <= |authors| && authors[..|old(authors)|] == old(authors)
      ensures forall i :: |old(authors)| <= i < |authors| ==> fresh(authors[i])
      ensures NamesDistinctFrom(authors, |old(authors)|)
      ensures AppendedFromKeys(authors, |old(authors)|, keys, records)
    {
      keys := [];
      var i := 0;
      while i < |records|
        invariant 0 <= i <= |records| && |keys| == i
        invariant info.poems == AddAll([], keys, FullTitles(records[..i])) && info.cache == old(info.cache)
        invariant forall m :: 0 <= m < i ==> KeyFits(keys[m], records[m].author) && (keys[m] == null || keys[m] in authors)
        invariant col == old(col)
        invariant |old(authors)| <= |authors| && authors[..|old(authors)|] == old(authors)
        invariant forall k :: |old(authors)| <= k < |authors| ==> fresh(authors[k])
        invariant NamesDistinctFrom(authors, |old(authors)|)
        invariant AppendedFromKeys(authors, |old(authors)|, keys, records)
      {
        ghost var before := authors;
        var author := IndexStep(info, records, keys, i, old(authors));
        AppendedSnoc(authors, before, |old(authors)|, keys, records, author);
        keys := keys + [author];
        i := i + 1;
      }
      assert records[..i] == records;
    }

    /** One record of that loop: its author resolved, its full title filed under it. */
    method IndexStep(info: PoetryFileInfo, records: seq<Poem>, ghost keys: seq<AuthorInfo?>, i: nat, ghost start: seq<AuthorInfo>)
      returns (author: AuthorInfo?)
      requires i < |records| && |keys| == i
      requires info.poems == AddAll([], keys, FullTitles(records[..i]))
      requires forall m :: 0 <= m < i ==> KeyFits(keys[m], records[m].author) && (keys[m] == null || keys[m] in authors)
      requires |start| <= |authors| && authors[..|start|] == start && NamesDistinctFrom(authors, |start|)
      modifies this, info
      ensures info.poems == AddAll([], keys + [author], FullTitles(records[..i + 1])) && info.cache == old(info.cache)
      ensures forall m :: 0 <= m < i + 1 ==>
                KeyFits((keys + [author])[m], records[m].author) && ((keys + [author])[m] == null || (keys + [author])[m] in authors)
      ensures col == old(col)
      ensures authors == old(authors) ||
                (author != null && fresh(author) && authors == old(authors) + [author] && author.name == records[i].author)
      ensures |start| <= |authors| && authors[..|start|] == start && NamesDistinctFrom(authors, |start|)
    {
      var p := records[i];
      ghost var before := authors;
      author := ResolveAuthor(p.author);
      if authors != before {
        DistinctSnoc(before, author, |start|);
        assert authors[..|start|] == before[..|start|];
      }
      RecordSnoc(info.poems, keys, records, i, author);
      info.Add(author, FullTitle(p));
      KeysSnoc(keys, records, i, author, before, authors);
    }

    /** Filing one more record extends the record-by-record index by that record's `Add`. */
    static lemma RecordSnoc(rows: seq<AuthorPoetry>, keys: seq<AuthorInfo?>, records: seq<Poem>, i: nat, author: AuthorInfo?)
      requires i < |records| && |keys| == i
      requires rows == AddAll([], keys, FullTitles(records[..i]))
      ensures AddToIndex(rows, author, FullTitle(records[i])) == AddAll([], keys + [author], FullTitles(records[..i + 1]))
    {
      TitlesSnoc(records, i);
      AddAllSnoc([], keys, FullTitles(records[..i]), author, FullTitle(records[i]));
    }

    /** The full titles of one more record are one more full title. */
    static lemma TitlesSnoc(records: seq<Poem>, i: nat)
      requires i < |records|
      ensures FullTitles(records[..i + 1]) == FullTitles(records[..i]) + [FullTitle(records[i])]
    {
      assert records[..i + 1] == records[..i] + [records[i]];
      MapSnoc(FullTitle, records[..i], records[i]);
    }

    /** The keys fit their records' authors and stay registered when one more fitting key is appended. */
    static lemma KeysSnoc(keys: seq<AuthorInfo?>, records: seq<Poem>, i: nat, author: AuthorInfo?,
                          before: seq<AuthorInfo>, after: seq<AuthorInfo>)
      requires i < |records| && |keys| == i
      requires forall m :: 0 <= m < i ==> KeyFits(keys[m], records[m].author) && (keys[m] == null || keys[m] in before)
      requires KeyFits(author, records[i].author) && (author == null || author in after)
      requires after == before || after == before + [author]
      ensures forall m :: 0 <= m < i + 1 ==>
                KeyFits((keys + [author])[m], records[m].author) && ((keys + [author])[m] == null || (keys + [author])[m] in after)
    {
      forall m | 0 <= m < i + 1
        ensures KeyFits((keys + [author])[m], records[m].author) && ((keys + [author])[m] == null || (keys + [author])[m] in after)
      {
        if m < i {
          assert (keys + [author])[m] == keys[m];
          assert keys[m] != null ==> keys[m] in after;
        }
      }
    }

    /** One more key keeps every appended author the key of a record of its name. */
    static lemma AppendedSnoc(after: seq<AuthorInfo>, before: seq<AuthorInfo>, from: nat, keys: seq<AuthorInfo?>, records: seq<Poem>,
                              author: AuthorInfo?)
      requires |keys| < |records| && AppendedFromKeys(before, from, keys, records)
      requires after == before || (author != null && after == before + [author] && author.name == records[|keys|].author)
      ensures AppendedFromKeys(after, from, keys + [author], records)
    {
      var keys' := keys + [author];
      forall k | from <= k < |after|
        ensures exists m :: 0 <= m < |keys'| && keys'[m] == after[k] && records[m].author == after[k].name
      {
        if k < |before| {
          assert after[k] == before[k];
          var m :| 0 <= m < |keys| && keys[m] == before[k] && records[m].author == before[k].name;
          assert keys'[m] == keys[m];
        } else {
          assert keys'[|keys|] == after[k];
        }
      }
      assert forall k :: from <= k < |after| ==>
               exists m :: 0 <= m < |keys + [author]| && (keys + [author])[m] == after[k] && records[m].author == after[k].name;
    }

    /** The update half of one merge: the author at position `t` takes the merged id, the name and the introduction. */
    method Assign(author: AuthorInfo, ghost reg: seq<AuthorInfo>, ghost pre: seq<Held>, ghost t: nat, name: string, id: Option<string>, intro: Option<string>)
      requires name != ""
      requires t < |reg| && reg[t] == author && pre == HeldBy(reg)
      modifies author
      ensures author.id == MergedId(old(author.id), id) && author.name == Some(name) && author.introduction == intro
      ensures AuthorsDistinct(reg) ==> HeldBy(reg) == pre[t := Held(author.id, author.name, author.introduction)]
      ensures forall i :: 0 <= i < |reg| && !IsNullOrEmpty(pre[i].id) ==> reg[i].id == pre[i].id
      ensures forall i :: 0 <= i < |reg| && !IsNullOrEmpty(pre[i].name) ==> !IsNullOrEmpty(reg[i].name)
    {
      author.id := MergedId(author.id, id);
      author.name := Some(name);
      author.introduction := intro;
      if AuthorsDistinct(reg) {
        forall j | 0 <= j < |reg| && j != t
          ensures HeldBy(reg)[j] == old(HeldBy(reg))[j]
        {
          assert reg[j] != author;
        }
      }
    }

    /**
     * The lookup half of one merge: the author with the supplied id, else the first with
     * exactly that name, else a new author appended to the registry; `t` is its position.
     */
    method Locate(name: string, id: Option<string>) returns (author: AuthorInfo, ghost t: nat)
      modifies this
      ensures col == old(col)
      ensures authors == old(authors) || (fresh(author) && authors == old(authors) + [author])
      ensures t == Target(HeldBy(old(authors)), Some(name), id) && t < |authors| && authors[t] == author
      ensures t < |old(authors)| <==> !fresh(author)
      ensures fresh(author) ==> author.id.None? && author.name.None? && author.introduction.None?
      ensures authors[..|old(authors)|] == old(authors)
      ensures HeldBy(authors) == old(HeldBy(authors)) + if fresh(author) then [Held(None, None, None)] else []
    {
      TargetInRegistry(authors, name, id);
      t := Target(HeldBy(authors), Some(name), id);
      var found: Option<nat> := None;
      if !IsNullOrEmpty(id) {
        found := FirstWithId(authors, id);
      }
      if found.None? {
        found := FirstNamed(authors, Some(name));
      }
      if found.Some? {
        assert found.value == t;
        author := authors[found.value];
      } else {
        assert t == |authors|;
        author := AddAuthor();
      }
    }

    /** A new author without id, name or introduction, appended to the registry. */
    method AddAuthor() returns (author: AuthorInfo)
      modifies this
      ensures fresh(author) && author.id.None? && author.name.None? && author.introduction.None?
      ensures col == old(col) && authors == old(authors) + [author]
      ensures HeldBy(authors) == old(HeldBy(authors)) + [Held(None, None, None)]
    {
      author := new AuthorInfo(None);
      authors := authors + [author];
      forall j | 0 <= j < |authors|
        ensures HeldBy(authors)[j] == (old(HeldBy(authors)) + [Held(None, None, None)])[j]
      {
        if j < |old(authors)| {
          assert authors[j] == old(authors)[j];
        }
      }
    }

    /**
     * One named entry merged: the author located, then its id merged and its name and
     * introduction overwritten. Under distinct authors the registry's values become
     * exactly those of the merge on values.
     */
    method MergeNamed(name: string, id: Option<string>, intro: Option<string>) returns (author: AuthorInfo, ghost at: nat)
      requires name != ""
      modifies this, authors
      ensures at < |authors| && authors[at] == author
      ensures author.name == Some(name) && author.introduction == intro
      ensures col == old(col)
      ensures |old(authors)| <= |authors| <= |old(authors)| + 1 && authors[..|old(authors)|] == old(authors)
      ensures |authors| > |old(authors)| ==> fresh(authors[|old(authors)|])
      ensures forall i :: 0 <= i < |old(authors)| && !IsNullOrEmpty(old(authors[i].id)) ==> authors[i].id == old(authors[i].id)
      ensures forall i :: 0 <= i < |old(authors)| && !IsNullOrEmpty(old(authors[i].name)) ==> !IsNullOrEmpty(authors[i].name)
      ensures at == MergeInto(old(HeldBy(authors)), name, id, intro, false).1
      ensures AuthorsDistinct(old(authors)) ==> AuthorsDistinct(authors) && HeldBy(authors) == MergeInto(old(HeldBy(authors)), name, id, intro, false).0
    {
      ghost var reg := authors;
      ghost var before := HeldBy(authors);
      author, at := Locate(name, id);
      assert HeldBy(reg) == before;
      ghost var located := authors;
      ghost var mid := HeldBy(authors);
      assert located == reg || (located == reg + [author] && author !in reg);
      forall i | 0 <= i < |reg|
        ensures located[i] == reg[i] && mid[i] == before[i]
      {
        assert located[i] == located[..|reg|][i];
      }
      Assign(author, located, mid, at, name, id, intro);
      assert authors == located;
      forall i | 0 <= i < |reg| && !IsNullOrEmpty(before[i].id)
        ensures located[i].id == before[i].id
      {
        assert mid[i] == before[i];
      }
      forall i | 0 <= i < |reg| && !IsNullOrEmpty(before[i].name)
        ensures !IsNullOrEmpty(located[i].name)
      {
        assert mid[i] == before[i];
      }
      if AuthorsDistinct(reg) {
        DistinctGrow(reg, located, author);
        MergeIntoUpdates(before, mid, at, name, id, intro);
      }
    }

    /** The body of the loop in `LoadAuthorsFileAsync`: an item that is a named object is merged. */
    method MergeItem(item: Json) returns (merged: Option<AuthorInfo>, ghost at: nat)
      modifies this, authors
      ensures merged.Some? <==> Accepted(item)
      ensures merged.Some? ==> at < |authors| && authors[at] == merged.value
      ensures merged.Some? ==> merged.value.name == EntryName(item.fields) && merged.value.introduction == IntroductionOf(item.fields)
      ensures col == old(col)
      ensures |old(authors)| <= |authors| <= |old(authors)| + 1 && authors[..|old(authors)|] == old(authors)
      ensures |authors| > |old(authors)| ==> fresh(authors[|old(authors)|])
      ensures forall i :: 0 <= i < |old(authors)| && !IsNullOrEmpty(old(authors[i].id)) ==> authors[i].id == old(authors[i].id)
      ensures forall i :: 0 <= i < |old(authors)| && !IsNullOrEmpty(old(authors[i].name)) ==> !IsNullOrEmpty(authors[i].name)
      ensures merged.Some? ==> !IsNullOrEmpty(merged.value.name)
      ensures merged.Some? ==> MergeOne(old(HeldBy(authors)), item, false).1 == Some(at)
      ensures AuthorsDistinct(old(authors)) ==> AuthorsDistinct(authors) && HeldBy(authors) == MergeOne(old(HeldBy(authors)), item, false).0
    {
      if !item.JObj? {
        return None, 0;
      }
      var name := EntryName(item.fields);
      if StringField(item.fields, "name").Some? {
        TrimEmptyIffBlank(StringField(item.fields, "name").value);
      }
      if IsNullOrEmpty(name) {
        return None, 0;
      }
      var author;
      author, at := MergeNamed(name.value, TrimOpt(StringField(item.fields, "id")), IntroductionOf(item.fields));
      return Some(author), at;
    }

    /** The loop of `LoadAuthorsFileAsync`: the items merged in order, and the authors they merged into. */
    method MergeItems(items: seq<Json>) returns (list: seq<AuthorInfo>)
      modifies this, authors
      ensures |list| == |Filter(items, Accepted)|
      ensures forall i :: 0 <= i < |list| ==> list[i] in authors && !IsNullOrEmpty(list[i].name)
      ensures col == old(col)
      ensures |old(authors)| <= |authors| && authors[..|old(authors)|] == old(authors)
      ensures forall i :: |old(authors)| <= i < |authors| ==> fresh(authors[i])
      ensures forall i :: 0 <= i < |old(authors)| && !IsNullOrEmpty(old(authors[i].id)) ==> authors[i].id == old(authors[i].id)
      ensures AuthorsDistinct(old(authors)) ==> AuthorsDistinct(authors) && HeldBy(authors) == MergeAll(old(HeldBy(authors)), items, false).0
      ensures AuthorsDistinct(old(authors)) ==> var at := MergeAll(old(HeldBy(authors)), items, false).1;
                |at| == |list| && forall i :: 0 <= i < |list| ==> at[i] < |authors| && list[i] == authors[at[i]]
    {
      ghost var at, fold;
      list, at, fold := MergeLoop(items);
      MergeAllCount(old(HeldBy(authors)), items, false);
      CountIsFilterLength(items, Accepted);
    }

    /** That loop, with the positions merged into and the merge on values it follows. */
    method MergeLoop(items: seq<Json>) returns (list: seq<AuthorInfo>, ghost at: seq<nat>, ghost fold: (seq<Held>, seq<nat>))
      modifies this, authors
      ensures fold == MergeAll(old(HeldBy(authors)), items, false) && |list| == |at| == |fold.1|
      ensures Placed(authors, list, at) && IdsKept(authors, old(Ids(authors)))
      ensures col == old(col)
      ensures |old(authors)| <= |authors| && authors[..|old(authors)|] == old(authors)
      ensures forall i :: |old(authors)| <= i < |authors| ==> fresh(authors[i])
      ensures AuthorsDistinct(old(authors)) ==> AuthorsDistinct(authors) && HeldBy(authors) == fold.0 && at == fold.1
    {
      list, at := [], [];
      ghost var ids := Ids(authors);
      ghost var vs := HeldBy(authors);
      ghost var d := AuthorsDistinct(authors);
      fold := (vs, []);
      var k := 0;
      while k < |items|
        invariant 0 <= k <= |items|
        invariant col == old(col)
        invariant fold == MergeAll(vs, items[..k], false)
        invariant |list| == |at| == |fold.1|
        invariant Placed(authors, list, at) && IdsKept(authors, ids)
        invariant |old(authors)| <= |authors| && authors[..|old(authors)|] == old(authors)
        invariant forall i :: |old(authors)| <= i < |authors| ==> fresh(authors[i])
        invariant d ==> AuthorsDistinct(authors) && HeldBy(authors) == fold.0 && at == fold.1
      {
        assert items[..k + 1][..k] == items[..k];
        ghost var prev := authors;
        ghost var next := MergeNext(vs, items, k, fold);
        list, at := MergeStep(items[k], old(authors), ids, list, at, d, fold.0);
        forall i | |old(authors)| <= i < |authors|
          ensures fresh(authors[i])
        {
          if i < |prev| {
            assert authors[i] == authors[..|prev|][i];
          }
        }
        fold := next;
        k := k + 1;
      }
      assert items[..k] == items;
    }

    /** One item of that loop: merged when accepted, with the registry position of the author it merged into. */
    method MergeStep(item: Json, ghost start: seq<AuthorInfo>, ghost ids: seq<Option<string>>, list: seq<AuthorInfo>, ghost at: seq<nat>,
                     ghost d: bool, ghost held: seq<Held>)
      returns (grown: seq<AuthorInfo>, ghost placed: seq<nat>)
      requires |ids| <= |start| <= |authors| && authors[..|start|] == start
      requires Placed(authors, list, at) && IdsKept(authors, ids)
      requires d ==> AuthorsDistinct(authors) && HeldBy(authors) == held
      modifies this, authors
      ensures |grown| == |placed| == |list| + (if Accepted(item) then 1 else 0)
      ensures Placed(authors, grown, placed) && IdsKept(authors, ids)
      ensures col == old(col)
      ensures |old(authors)| <= |authors| && authors[..|old(authors)|] == old(authors)
      ensures forall i :: |old(authors)| <= i < |authors| ==> fresh(authors[i])
      ensures d ==> AuthorsDistinct(authors) && HeldBy(authors) == MergeOne(held, item, false).0
      ensures d ==> var step := MergeOne(held, item, false).1;
                placed == if step.Some? then at + [step.value] else at
    {
      ghost var before := authors;
      ghost var m;
      var merged;
      merged, m := MergeItem(item);
      assert authors[..|before|] == before;
      forall i | 0 <= i < |list|
        ensures at[i] < |authors| && authors[at[i]] == list[i] && !IsNullOrEmpty(list[i].name)
      {
        assert authors[at[i]] == authors[..|before|][at[i]];
      }
      forall i | 0 <= i < |ids| && !IsNullOrEmpty(ids[i])
        ensures authors[i].id == ids[i]
      {
        assert authors[i] == authors[..|before|][i];
      }
      forall i | |before| <= i < |authors|
        ensures fresh(authors[i])
      {
        assert i == |before|;
      }
      if merged.Some? {
        PlacedSnoc(authors, list, at, merged.value, m);
        grown, placed := list + [merged.value], at + [m];
      } else {
        grown, placed := list, at;
      }
    }

    /**
     * `LoadAuthorsFileAsync(file)`: null for a missing file; otherwise every named object of
     * the array merged into the registry, and the merged authors in item order.
     */
    method LoadAuthorsFile(file: FileHandle?) returns (r: Outcome<Option<seq<AuthorInfo>>>)
      modifies this, authors
      ensures file == null || !file.Exists() ==> r == Ok(None) && authors == old(authors)
      ensures file != null && file.Exists() && file.content.value.asTree.Malformed? ==> r == Thrown(JsonException) && authors == old(authors)
      ensures file != null && file.Exists() && file.content.value.asTree.Null? ==> r == Thrown(NullReferenceException) && authors == old(authors)
      ensures file != null && file.Exists() && file.content.value.asTree.Value? ==>
                r.Ok? && r.value.Some? && |r.value.value| == |Filter(file.content.value.asTree.value, Accepted)|
                && forall i :: 0 <= i < |r.value.value| ==> r.value.value[i] in authors && !IsNullOrEmpty(r.value.value[i].name)
      ensures file != null && file.Exists() && file.content.value.asTree.Value? && AuthorsDistinct(old(authors)) ==>
                var merge := MergeAll(old(HeldBy(authors)), file.content.value.asTree.value, false);
                AuthorsDistinct(authors) && HeldBy(authors) == merge.0 && r.Ok? && r.value.Some? && |merge.1| == |r.value.value|
                && forall i :: 0 <= i < |r.value.value| ==> merge.1[i] < |authors| && r.value.value[i] == authors[merge.1[i]]
      ensures col == old(col)
      ensures |old(authors)| <= |authors| && authors[..|old(authors)|] == old(authors)
      ensures forall i :: |old(authors)| <= i < |authors| ==> fresh(authors[i])
      ensures forall i :: 0 <= i < |old(authors)| && !IsNullOrEmpty(old(authors[i].id)) ==> authors[i].id == old(authors[i].id)
    {
      if file == null || !file.Exists() {
        return Ok(None);
      }
      var items: seq<Json>;
      match file.content.value.asTree {
        case Malformed =>
          return Thrown(JsonException);
        case Null =>
          return Thrown(NullReferenceException);
        case Value(v) =>
          items := v;
      }
      var list := MergeItems(items);
      return Ok(Some(list));
    }

    /**
     * `GenerateAsync(dir, pattern, outputFileName)`: null without a directory; otherwise a new
     * menu holding one uncached partition per listed file that exists, and the JSON array
     * written to the output file when its name is not blank. `files` stands for the listing.
     */
    static method Generate(files: Option<seq<FileHandle>>, outputName: Option<string>)
      returns (r: Outcome<PoetryCollection?>, output: Option<seq<map<string, Json>>>)
      ensures files.None? ==> r == Ok(null) && output.None?
      ensures files.Some? ==> (r.Ok? <==> forall i :: 0 <= i < |files.value| && files.value[i].Exists() ==> ParseFile(files.value[i]).Ok?)
      ensures r.Thrown? ==> output.None? && exists i :: 0 <= i < |files.value| && files.value[i].Exists() && ParseFile(files.value[i]) == Thrown(r.error)
      ensures r.Ok? && files.Some? ==> (r.value != null && fresh(r.value) && FilesDistinct(r.value.col)
                && FilesOf(r.value.col) == Existing(files.value)
                && forall j :: 0 <= j < |r.value.col| ==> r.value.col[j] != null && Unloaded(r.value.col[j]))
      ensures r.Ok? && r.value != null ==> forall i :: 0 <= i < |r.value.authors| ==> fresh(r.value.authors[i])
      ensures output.Some? <==> r.Ok? && files.Some? && !IsBlank(outputName)
      ensures output.Some? ==> (|output.value| == |r.value.col|
                && forall j :: 0 <= j < |output.value| ==> r.value.col[j] != null && output.value[j] == r.value.col[j].ToJson())
    {
      if files.None? {
        return Ok(null), None;
      }
      var built := GenerateMenu(files.value);
      if built.Thrown? {
        return Thrown(built.error), None;
      }
      var menu := built.value;
      if IsBlank(outputName) {
        return Ok(menu), None;
      }
      FilterAll(menu.col, IsPresent);
      var s := menu.ToJsonArray();
      return Ok(menu), Some(s);
    }

    /** The loop of `GenerateAsync`: `LoadFileAsync(file, false)` for every listed file, in order, on a new menu. */
    static method GenerateMenu(list: seq<FileHandle>) returns (r: Outcome<PoetryCollection>)
      ensures r.Ok? <==> forall i :: 0 <= i < |list| && list[i].Exists() ==> ParseFile(list[i]).Ok?
      ensures r.Thrown? ==> exists i :: 0 <= i < |list| && list[i].Exists() && ParseFile(list[i]) == Thrown(r.error)
      ensures r.Ok? ==> (fresh(r.value) && FilesDistinct(r.value.col) && FilesOf(r.value.col) == Existing(list)
                && forall j :: 0 <= j < |r.value.col| ==> r.value.col[j] != null && Unloaded(r.value.col[j]))
      ensures r.Ok? ==> forall i :: 0 <= i < |r.value.authors| ==> fresh(r.value.authors[i])
    {
      var menu := new PoetryCollection();
      var i := 0;
      while i < |list|
        invariant 0 <= i <= |list|
        invariant fresh(menu)
        invariant FilesDistinct(menu.col) && FilesOf(menu.col) == Existing(list[..i])
        invariant forall j :: 0 <= j < |menu.col| ==> menu.col[j] != null && Unloaded(menu.col[j])
        invariant ParsesUpTo(list, i)
        invariant forall k :: 0 <= k < |menu.authors| ==> fresh(menu.authors[k])
      {
        var o := GenerateStep(menu, list, i);
        if o.Thrown? {
          return Thrown(o.error);
        }
        ParsesOneMore(list, i);
        i := i + 1;
      }
      assert list[..i] == list;
      return Ok(menu);
    }

    /** One file of `GenerateAsync`: `LoadFileAsync(file, false)` on the menu being built. */
    static method GenerateStep(menu: PoetryCollection, list: seq<FileHandle>, i: nat) returns (o: Outcome<PoetryFileInfo?>)
      requires i < |list|
      requires FilesDistinct(menu.col) && FilesOf(menu.col) == Existing(list[..i])
      requires forall j :: 0 <= j < |menu.col| ==> menu.col[j] != null && Unloaded(menu.col[j])
      modifies menu
      ensures o.Thrown? <==> list[i].Exists() && ParseFile(list[i]).Thrown?
      ensures o.Ok? && list[i].Exists() ==> ParseFile(list[i]).Ok?
      ensures o.Thrown? ==> o.error == ParseFile(list[i]).error
      ensures FilesDistinct(menu.col)
      ensures o.Ok? ==> FilesOf(menu.col) == Existing(list[..i + 1])
      ensures forall j :: 0 <= j < |menu.col| ==> menu.col[j] != null && Unloaded(menu.col[j])
      ensures forall k :: 0 <= k < |menu.authors| ==> menu.authors[k] in old(menu.authors) || fresh(menu.authors[k])
    {
      ghost var before := menu.col;
      if !list[i].Exists() {
        o := menu.LoadFileUnhandled(list[i], false);
        assert list[..i + 1] == list[..i] + [list[i]];
        assert Existing(list[..i + 1]) == Existing(list[..i]);
        return;
      }
      o := GenerateExisting(menu, list, i);
    }

    /** `GenerateStep` for a listed file that exists: its entry is replaced by a fresh unloaded one. */
    static method GenerateExisting(menu: PoetryCollection, list: seq<FileHandle>, i: nat) returns (o: Outcome<PoetryFileInfo?>)
      requires i < |list| && list[i].Exists()
      requires FilesDistinct(menu.col) && FilesOf(menu.col) == Existing(list[..i])
      requires forall j :: 0 <= j < |menu.col| ==> menu.col[j] != null && Unloaded(menu.col[j])
      modifies menu
      ensures o.Thrown? <==> ParseFile(list[i]).Thrown?
      ensures o.Thrown? ==> o.error == ParseFile(list[i]).error
      ensures FilesDistinct(menu.col)
      ensures o.Ok? ==> FilesOf(menu.col) == Existing(list[..i + 1])
      ensures forall j :: 0 <= j < |menu.col| ==> menu.col[j] != null && Unloaded(menu.col[j])
      ensures forall k :: 0 <= k < |menu.authors| ==> menu.authors[k] in old(menu.authors) || fresh(menu.authors[k])
    {
      ghost var before := menu.col;
      ghost var rest := RemoveFile(before, list[i]).0;
      assert forall j :: 0 <= j < |rest| ==> rest[j] in before;
      assert forall j :: 0 <= j < |rest| ==> rest[j] != null && Unloaded(rest[j]);
      o := menu.LoadFileUnhandled(list[i], false);
      forall j | 0 <= j < |rest|
        ensures Unloaded(rest[j])
      {
      }
      if o.Thrown? {
        ReplacedFiles(before, list, i, None);
      } else {
        ReplacedFiles(before, list, i, Some(o.value));
        forall j | 0 <= j < |menu.col|
          ensures menu.col[j] != null && Unloaded(menu.col[j])
        {
          if j < |rest| {
            assert menu.col[j] == rest[j];
          }
        }
      }
    }

    /** What the menu's files become when `LoadFileAsync` replaces the entry for an existing listed file. */
    static lemma ReplacedFiles(before: seq<PoetryFileInfo?>, list: seq<FileHandle>, i: nat, info: Option<PoetryFileInfo>)
      requires i < |list| && list[i].Exists()
      requires forall j :: 0 <= j < |before| ==> before[j] != null
      requires FilesDistinct(before) && FilesOf(before) == Existing(list[..i])
      requires info.Some? ==> info.value.file == list[i]
      ensures FilesDistinct(RemoveFile(before, list[i]).0)
      ensures info.Some? ==> FilesDistinct(RemoveFile(before, list[i]).0 + [info.value])
      ensures info.Some? ==> FilesOf(RemoveFile(before, list[i]).0 + [info.value]) == Existing(list[..i + 1])
    {
      var rest := RemoveFile(before, list[i]).0;
      assert FilesDistinct(rest) by {
        forall a, b | 0 <= a < b < |rest| && rest[a] != null && rest[b] != null && rest[a].file != null
          ensures rest[a].file != rest[b].file
        {
          SubsequenceKeepsDistinct(rest, before, a, b);
        }
      }
      if info.Some? {
        AddKeepsFilesDistinct(before, info.value);
        assert FilesOf(rest + [info.value]) == Existing(list[..i + 1]) by {
          RemoveFileFiles(before, list[i]);
          assert list[..i + 1] == list[..i] + [list[i]];
          assert Existing(list[..i + 1]) == Existing(list[..i]) + {list[i] as FileHandle?};
          assert FilesOf(rest + [info.value]) == FilesOf(rest) + {list[i] as FileHandle?};
        }
      }
    }

    /** `Count()`: the sum of the entries' counts, a null entry counting nothing. */
    function Count(): (r: nat)
      reads this, Entries(col)
      ensures forall j :: 0 <= j < |col| && col[j] != null ==> col[j].Count() <= r
      ensures r == 0 <==> forall j :: 0 <= j < |col| ==> col[j] == null || col[j].Count() == 0
    {
      CountOf(col)
    }

    /**
     * `EnumerableBasicInfo()`: the listings of the partitions in order, null entries skipped;
     * its length is `Count()` when every index is valid.
     */
    function EnumerableBasicInfo(): (r: seq<BasicInfo>)
      reads this, Entries(col), IndexedAuthors(col)
      ensures forall x :: x in r <==> exists j :: 0 <= j < |col| && col[j] != null && x in col[j].BasicInfos()
    {
      ListingOf(col)
    }

    /** The collection's listing has one entry per counted record. */
    lemma ListingLength()
      requires forall j :: 0 <= j < |col| && col[j] != null ==> col[j].Valid()
      ensures |EnumerableBasicInfo()| == Count()
    {
      ListingOfLength(col);
    }

    /** `GetAuthorById(id)`: null for a blank id, else the first registry author with exactly that id. */
    function GetAuthorById(id: Option<string>): (r: AuthorInfo?)
      reads this, authors
      ensures IsBlank(id) ==> r == null
      ensures !IsBlank(id) ==> (r == null <==> forall i :: 0 <= i < |authors| ==> authors[i].id != id)
      ensures r != null ==> r in authors && r.id == id
      ensures r != null ==> exists i :: 0 <= i < |authors| && authors[i] == r && forall j :: 0 <= j < i ==> authors[j].id != id
    {
      if IsBlank(id) then null
      else
        var found := FirstWithId(authors, id);
        if found.Some? then authors[found.value] else null
    }

    /**
     * With the id guard as written, a registry whose authors had no ids and that then took
     * in side-files through the as-written merge still has none, so every lookup by id
     * finds nothing.
     */
    lemma NoIdsNoneFound(start: seq<Held>, items: seq<Json>, id: Option<string>)
      requires forall j :: 0 <= j < |start| ==> IsNullOrEmpty(start[j].id)
      requires HeldBy(authors) == MergeAll(start, items, true).0
      ensures GetAuthorById(id) == null
    {
      AsWrittenKeepsIdsEmpty(start, items);
      assert forall i :: 0 <= i < |authors| ==> IsNullOrEmpty(authors[i].id) by {
        forall i | 0 <= i < |authors|
          ensures IsNullOrEmpty(authors[i].id)
        {
          assert HeldBy(authors)[i].id == authors[i].id;
        }
      }
    }

    /** Whether each registry author has `name`, ignoring case. */
    function NameFlags(name: string): (r: seq<bool>)
      reads this, authors
      ensures |r| == |authors| && forall i :: 0 <= i < |authors| ==> (r[i] <==> EqualsIgnoreCase(name, authors[i].name))
    {
      seq(|authors|, i reads this, authors requires 0 <= i < |authors| => EqualsIgnoreCase(name, authors[i].name))
    }

    /** Whether `Contains(names, name)` accepts each registry author's name. */
    function NamesFlags(names: seq<Option<string>>): (r: seq<bool>)
      reads this, authors
      ensures |r| == |authors| && forall i :: 0 <= i < |authors| ==> (r[i] <==> ContainsName(names, authors[i].name))
    {
      seq(|authors|, i reads this, authors requires 0 <= i < |authors| => ContainsName(names, authors[i].name))
    }

    /**
     * `GetAuthorByName(name)`: null for a blank name, else the registry authors of that name
     * ignoring case, in registry order, each position once.
     */
    function GetAuthorByName(name: Option<string>): (r: Option<seq<AuthorInfo>>)
      reads this, authors
      ensures r.None? <==> IsBlank(name)
      ensures r.Some? ==> forall i :: 0 <= i < |authors| && EqualsIgnoreCase(name.value, authors[i].name) ==> authors[i] in r.value
      ensures r.Some? ==> forall i :: 0 <= i < |r.value| ==> r.value[i] in authors && EqualsIgnoreCase(name.value, r.value[i].name)
      ensures r.Some? ==> (|r.value| == |Flagged(NameFlags(name.value))| &&
                           forall k :: 0 <= k < |r.value| ==> r.value[k] == authors[Flagged(NameFlags(name.value))[k]])
    {
      if IsBlank(name) then None
      else
        var r := Pick(authors, NameFlags(name.value));
        PickMembers(authors, NameFlags(name.value));
        assert forall k :: 0 <= k < |r| ==> r[k] in r;
        Some(r)
    }

    /**
     * `GetAuthorByName(names)`: null for a null list, else the authors `Contains(names, name)`
     * accepts, in registry order, each position once.
     */
    function GetAuthorByNames(names: Option<seq<Option<string>>>): (r: Option<seq<AuthorInfo>>)
      reads this, authors
      ensures r.None? <==> names.None?
      ensures r.Some? ==> forall i :: 0 <= i < |authors| && ContainsName(names.value, authors[i].name) ==> authors[i] in r.value
      ensures r.Some? ==> forall i :: 0 <= i < |r.value| ==> r.value[i] in authors && ContainsName(names.value, r.value[i].name)
      ensures r.Some? ==> (|r.value| == |Flagged(NamesFlags(names.value))| &&
                           forall k :: 0 <= k < |r.value| ==> r.value[k] == authors[Flagged(NamesFlags(names.value))[k]])
    {
      if names.None? then None
      else
        var r := Pick(authors, NamesFlags(names.value));
        PickMembers(authors, NamesFlags(names.value));
        assert forall k :: 0 <= k < |r| ==> r[k] in r;
        Some(r)
    }

    /** `GetAuthorByName(name1, name2, name3, name4)`: the list overload on the four names. */
    function GetAuthorByFourNames(n1: Option<string>, n2: Option<string>, n3: Option<string>, n4: Option<string>): (r: seq<AuthorInfo>)
      reads this, authors
      ensures Some(r) == GetAuthorByNames(Some([n1, n2, n3, n4]))
    {
      Pick(authors, NamesFlags([n1, n2, n3, n4]))
    }

    /** One non-blank name finds the same authors through the single-name and the list overloads. */
    lemma NameOverloadsAgree(name: string)
      requires !IsBlank(Some(name))
      ensures GetAuthorByNames(Some([Some(name)])) == GetAuthorByName(Some(name))
    {
      var a := NameFlags(name);
      var b := NamesFlags([Some(name)]);
      forall i | 0 <= i < |authors|
        ensures a[i] == b[i]
      {
        assert ContainsName([Some(name)], authors[i].name) <==> NameMatches(Some(name), authors[i].name);
      }
      assert a == b;
    }

    /**
     * `Add(data)`: ignores null; otherwise removes the entries for the same non-null file
     * and appends `data`. The removal throws on a null entry, leaving the list as
     * `RemoveAll` left it.
     */
    method Add(data: PoetryFileInfo?) returns (thrown: Option<Exception>)
      modifies this
      ensures data == null ==> col == old(col) && thrown.None?
      ensures data != null && data.file == null ==> col == old(col) + [data] && thrown.None?
      ensures data != null && data.file != null ==>
                thrown == RemoveFile(old(col), data.file).1
                && col == RemoveFile(old(col), data.file).0 + (if thrown.None? then [data] else [])
      ensures authors == old(authors)
    {
      if data == null {
        return None;
      }
      if data.file != null {
        var removed := RemoveFile(col, data.file);
        col := removed.0;
        if removed.1.Some? {
          return removed.1;
        }
      }
      col := col + [data];
      return None;
    }

    /** The `(JsonArray)` form: one manifest object per present entry, in order. */
    method ToJsonArray() returns (r: seq<map<string, Json>>)
      ensures |r| == |Filter(col, IsPresent)|
      ensures forall i :: 0 <= i < |r| ==> Filter(col, IsPresent)[i] != null && r[i] == Filter(col, IsPresent)[i].ToJson()
    {
      r := [];
      ghost var present: seq<PoetryFileInfo?> := [];
      var i := 0;
      while i < |col|
        invariant 0 <= i <= |col|
        invariant present == Filter(col[..i], IsPresent)
        invariant |r| == |present| && forall k :: 0 <= k < |r| ==> present[k] != null && r[k] == present[k].ToJson()
      {
        assert col[..i + 1] == col[..i] + [col[i]];
        FilterAppend(col[..i], [col[i]], IsPresent);
        assert Filter([col[i]], IsPresent) == if col[i] != null then [col[i]] else [];
        if col[i] != null {
          var j := col[i].ToJson();
          r := r + [j];
          present := present + [col[i]];
        }
        i := i + 1;
      }
      assert col[..i] == col;
    }
  }
}
