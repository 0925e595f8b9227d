# Poetry corpus index — a Dafny model

This project models the corpus-indexing core of a Chinese classical poetry library
(`Chinese/*.cs`), and proves properties of that model. The library holds twelve corpora:
Tang poetry, Song poetry and lyrics, Yuan verses and others. It loads each corpus from a
tree of JSON files, keeps a light index of every file, and answers searches by loading only
the files whose index can match.

How the code is organised:

- **Records**. A record (`PoetryModel`) is a title, a chapter and a section, an author, a
  dynasty and paragraphs, plus extension data. `Reorganize` folds the extension data
  (`content`, `rhythmic`) into the paragraphs and the title. `FullTitle` joins the section
  (or chapter) and the title with a middle dot.
- **Partitions**. A partition (`PoetryFileInfo`) stands for one data file.
  - It holds an index: one row per author object, each listing that author's distinct,
    non-blank titles in the file. It also holds a lazily filled cache of the file's records.
  - Records are read by a three-tier parser: a whole JSON array, then a single object, then
    one object per line.
  - A partition can be written to and restored from a manifest entry,
    `{"file": name, "poetry": [[author, title, ...], ...]}`.
- **Collections**. A collection (`PoetryCollection`) is a list of partitions plus one author
  registry shared by all of them.
  - It loads files. It parses and generates manifests. It merges an authors side-file into
    the registry.
  - It searches in two phases. First it loads every partition whose index passes the test.
    Then it takes the matches from the caches of all partitions.
- **The pool**. The pool (`PoetryPool`) has one slot per corpus. Each accessor returns the
  filled slot, or loads the corpus into it. Every accessor has its own folder, its own file
  names or manifest, and its own authors side-file. `LoadFilesAsync` calls all twelve
  accessors in a fixed order.

Modelling decisions:

- **Exceptions**. A C# exception that escapes is an `Outcome` value, `Thrown(kind)`, and a
  C# null is `None`. A `catch (JsonException)` that resets a slot is modelled exactly where
  the code has it.
- **JSON decoding**. The JSON library is not modelled. A file (`Document`) is described by
  the verdict each typed deserializer gives on it: malformed, `null` or a value. The parse
  tiers, the manifest reader and the side-file reader are modelled on top of those verdicts.
- **Files and folders**. The data directory is a `Disk` value: a lookup of a file by folder
  and name, and a listing of a folder by pattern. A file's content is fixed.
- **Matching**. `Contains` and the `CurrentCultureIgnoreCase` comparisons follow the
  .NET Core branch of `PoetryPool.Contains` (`Chinese/PoetryPool.cs:475-493`). Case folding
  is per character, and folds ASCII letters only.
- **Mutation**. Author objects are shared and updated in place, so `AuthorInfo` is a class;
  so are `PoetryFileInfo`, `PoetryCollection` and the pool.
  - The record handler, an `Action<PoetryModel>` that mutates each record, is a function
    from record to record.
  - Index rows (`AuthorPoetry`) are values held in a sequence field that `Add` reassigns.
- **Order of loading and testing in the first search phase**. The source evaluates each
  entry's test just before loading it. The model takes every test's verdict before the
  first load. For the tests the collection itself builds (the author, author-list,
  query and query-list tests of `Chinese/PoetryCollection.cs:123-167`) the two agree, because
  those tests read only an entry's index and its authors, and loading changes neither.
  `LoadDataWhere` proves that loading leaves both unchanged. A caller's predicate is taken to
  be a test of that kind (see "## Left out").
- **Two copy-paste slips are kept as written**:
  - the Tang accessor names the generated manifest `menu.song.json`
    (`Chinese/PoetryPool.cs:100`);
  - the Song accessor merges `authors.song.json` into the *Tang* slot
    (`Chinese/PoetryPool.cs:169`).

  `Pool.PlanOf` records both. `Pool.PoetryPool.LoadMenu` and `Pool.PoetryPool.Load` state
  what follows from them: the Song accessor modifies the Tang collection, and it throws
  `NullReferenceException` when the Tang slot is empty. The contract of `Pool.PlanOf`
  states that no other accessor lends its slot. These two are left as they are, rather than corrected,
  because the rest of the pool does not depend on a corrected form.
- **Line tier of the parser**. In line-per-record mode, a line shorter than ten UTF-16 code units
  (`string.Length`, where a character beyond U+FFFF counts two) is skipped, and the line read next is *not* trimmed (`Chinese/PoetryPartition.cs:479-483`).
  `Documents.LineMode` keeps this, and `Documents.ShortLineDisablesTrim` states it.

## Model

| member | source | states |
|---|---|---|
| Model.FullTitle | Chinese/PoetryModel.cs:104-113 | a present full title is trimmed at both ends; the full title is absent exactly when the title is null and the section-or-chapter prefix is null or empty |
| Model.FullTitleWithoutPrefix | Chinese/PoetryModel.cs:108-110 | with an empty prefix the full title is the trimmed title |
| Model.FullTitleWithPrefix | Chinese/PoetryModel.cs:108-111 | with a prefix: the prefix alone when the trimmed title is empty, otherwise prefix · middle dot · trimmed title |
| Model.SectionWins | Chinese/PoetryModel.cs:109 | when a section is present the chapter has no influence on the full title |
| Model.StringsOf | Chinese/PoetryModel.cs:172-176 | an array `content` value yields exactly its string elements, in order |
| Model.Reorganized | Chinese/PoetryModel.cs:161-192 | reorganizing changes at most the paragraphs and the title |
| Model.ReorganizeWithoutExtension | Chinese/PoetryModel.cs:163 | a record without extension data is unchanged |
| Model.ReorganizeParagraphs | Chinese/PoetryModel.cs:164-180 | present paragraphs are kept; a string `content` becomes one paragraph; an array `content` becomes its strings; any other `content` leaves the paragraphs null |
| Model.ReorganizeTitle | Chinese/PoetryModel.cs:182-191 | a string `rhythmic` tune replaces a blank title, is put in front with a dot when the title does not start with it and the tune is not blank, and otherwise leaves the title as it is |
| Model.FoldedTitleStartsWithTune | Chinese/PoetryModel.cs:182-191 | after folding a non-blank tune in, the title starts with the tune |
| Model.FoldRhythmicIdempotent | Chinese/PoetryModel.cs:182-191 | folding the same tune in twice is folding it once |
| Model.ReorganizeIdempotent | Chinese/PoetryModel.cs:161-192 | `Reorganize` applied twice equals applying it once |
| Model.NonBlank | Chinese/PoetryModel.cs:201-212 | the parts kept are non-blank, and none is kept exactly when every part is blank |
| Model.Rendering | Chinese/PoetryModel.cs:198-237 | the text of `ToString` begins with the heading (the dot-joined non-blank chapter, section and title), and is empty exactly when every rendered field and every paragraph is blank |
| Model.HeadingEmpty | Chinese/PoetryModel.cs:201-212 | the heading is empty exactly when chapter, section and title are all blank |
| Model.BodyEmpty | Chinese/PoetryModel.cs:229-234 | the paragraphs block is empty exactly when there are no paragraphs or every one is blank |
| Model.JoinOfNonEmpty | Chinese/PoetryModel.cs:201-234 | a join whose last part is non-empty is non-empty |
| Model.JoinStep | Chinese/PoetryModel.cs:201-212 | appending one part to the heading adds a dot and the part only when both the heading and the part are non-blank |
| Model.AppendPart | Chinese/PoetryModel.cs:201-212 | the builder after one more part is the dot-join of the non-blank parts so far |
| Model.PoetryModel.constructor | Chinese/PoetryModel.cs:60-156 | a record object holds exactly the given field values |
| Model.PoetryModel.Reorganize | Chinese/PoetryModel.cs:161-192 | the record's new value is the reorganized old value |
| Model.PoetryModel.ToString | Chinese/PoetryModel.cs:198-237 | the string built step by step is the rendering: heading, line break after a title, bracketed dynasty, author line, then the non-blank paragraphs after a blank line |
| Model.PoetryModel.HeadingLine | Chinese/PoetryModel.cs:200-213 | the heading built part by part is the specified heading, followed by a line break exactly when there is a title |
| Model.PoetryModel.BylineText | Chinese/PoetryModel.cs:215-227 | the bracketed dynasty and the author line, each only when non-blank |
| Model.PoetryModel.BodyText | Chinese/PoetryModel.cs:229-234 | the non-blank paragraphs, one per line, set off by a blank line, or nothing |
| Authors.AuthorInfo.constructor | Chinese/AuthorInfo.cs:20-44 | a new author has the given name and neither id nor introduction |
| Authors.FirstNamed | Chinese/PoetryPartition.cs:388 | the position of the first author with exactly that name, none exactly when no author has it |
| Authors.FirstWithId | Chinese/PoetryCollection.cs:275 | the position of the first author with exactly that id, none exactly when no author has it |
| Authors.Pick | Chinese/PoetryCollection.cs:72-76 | the authors `Where` keeps are the registry authors at the flagged positions, in registry order, one per flagged position |
| Authors.Flagged | Chinese/PoetryCollection.cs:72-76 | every position listed is in range and flagged |
| Authors.FlaggedOrdered | Chinese/PoetryCollection.cs:72-76 | the listed positions strictly increase and every flagged position is listed |
| Authors.FlaggedHead | Chinese/PoetryCollection.cs:225 | no position before the first listed one is flagged, so the first author picked is the first that passes |
| Authors.PickMembers | Chinese/PoetryCollection.cs:72-76 | an author is picked exactly when some flagged position holds it |
| Authors.FirstNamedAppend | Chinese/PoetryPartition.cs:386-395 | appending an author never changes which author comes first for a name already present |
| Authors.CanonicalByName | Chinese/PoetryPartition.cs:384-395 | authors handed out by first-of-name resolution are the same object exactly when their names are equal |
| Authors.CanonicalExtends | Chinese/PoetryPartition.cs:384-395 | authors added later never displace an author that name resolution has already handed out |
| Matching.Contains | Chinese/PoetryPool.cs:475-483 | true exactly when the subject is not blank and the query occurs in it ignoring case; then the query is no longer than the subject; the empty query and the subject itself always match |
| Matching.ContainsName | Chinese/PoetryPool.cs:485-488 | true exactly when some non-blank element equals the name ignoring case |
| Matching.ContainsAny | Chinese/PoetryPool.cs:490-493 | false for a blank subject or a null list; otherwise the queries are tried in order: true exactly when some query occurs in the subject before any null query, and `ArgumentNullException` exactly when a null query comes before any match |
| Matching.QueryHit | Chinese/PoetryPool.cs:475-483 | one query: a blank subject gives false; otherwise a null query throws `ArgumentNullException`, and a present one gives whether it occurs |
| Matching.OccurrenceIsMatch | Chinese/PoetryPool.cs:475-483 | a literal occurrence of the query in a non-blank subject is a match |
| Matching.ContainsIgnoresCase | Chinese/PoetryPool.cs:475-483 | a query and its case-folded form match the same subjects |
| Matching.EmptyQueryMatches | Chinese/PoetryPool.cs:475-483 | the empty query matches every non-blank subject |
| Matching.BlankMatchesNothing | Chinese/PoetryPool.cs:475-493 | a blank subject matches no query and no query list; a null query list matches nothing |
| Matching.ElementIsFound | Chinese/PoetryPool.cs:485-488 | a non-blank element is found by its own name and by any spelling that folds to it |
| Matching.NullNameNeverFound | Chinese/PoetryPool.cs:485-488 | a null name is never found |
| Documents.ArrayRecords | Chinese/PoetryPartition.cs:446-451 | the array tier fails with `NullReferenceException` exactly when some element is null, and otherwise yields every element, in order |
| Documents.ReorganizeAll | Chinese/PoetryPartition.cs:448-451 | every record of the array is reorganized, position by position |
| Documents.ParseDocument | Chinese/PoetryPartition.cs:440-496 | a `NullReferenceException` only from a null array element; a `JsonException` only when neither the array nor the object view decodes; a decoded array gives one reorganized record per element |
| Documents.LineMode | Chinese/PoetryPartition.cs:468-493 | line mode only throws `JsonException`, and only when some line is at least ten UTF-16 code units long |
| Documents.ParseFile | Chinese/PoetryPartition.cs:440-496 | only an existing file can make the parse throw, and only `JsonException` or `NullReferenceException`; every record of a success is reorganized |
| Documents.LeafSegment | Chinese/PoetryPartition.cs:429 | `FileInfo.Name` is the end of the path after its last directory separator: it holds no separator and is the whole path when there is none |
| Documents.LeafOfPlainName | Chinese/PoetryPartition.cs:429 | a file name without directory separators is written back as given |
| Documents.ArrayWins | Chinese/PoetryPartition.cs:446-452 | once the array view decodes, the single-object and line tiers are never consulted |
| Documents.ObjectTier | Chinese/PoetryPartition.cs:454-467 | the single-object tier succeeds with at most one record and never reads the lines |
| Documents.LineModeBound | Chinese/PoetryPartition.cs:468-493 | line mode yields at most one record per line |
| Documents.ShortLinesYieldNothing | Chinese/PoetryPartition.cs:478-483 | lines shorter than ten UTF-16 code units are skipped whatever they hold |
| Documents.SupplementaryLineIsLong | Chinese/PoetryPartition.cs:477 | a nine-character line holding one character beyond U+FFFF is ten code units long, so it is not skipped |
| Text.Utf16Length | Chinese/PoetryPartition.cs:477 | `string.Length` counts UTF-16 code units: at least one and at most two per character |
| Text.Utf16Trim | Chinese/PoetryPartition.cs:477 | trimming never makes a line longer in code units |
| Documents.ShortLineDisablesTrim | Chinese/PoetryPartition.cs:478-483 | the line after a skipped short line reaches the decoder untrimmed |
| Documents.LineModeReorganized | Chinese/PoetryPartition.cs:484-491 | every record line mode yields is already reorganized |
| Documents.ParsedAreReorganized | Chinese/PoetryPartition.cs:440-496 | every record any tier yields is a fixpoint of `Reorganize` |
| Index.RowOf | Chinese/PoetryPartition.cs:79 | the first row whose author is exactly the key; none exactly when no row has it |
| Index.AddBlankTitle | Chinese/PoetryPartition.cs:78 | a null or blank title leaves the index unchanged |
| Index.AddPreservesValid | Chinese/PoetryPartition.cs:76-94 | `Add` keeps one row per author and non-empty rows of distinct, non-blank titles |
| Index.AddEffect | Chinese/PoetryPartition.cs:76-94 | `Add(k, t)` adds `t` to `k`'s titles once, leaves other authors' titles alone, and appends a row exactly when `k` had none |
| Index.AddKeys | Chinese/PoetryPartition.cs:79-87 | `Add` keeps every row's author in place and can only append a row for its own author |
| Index.AddCount | Chinese/PoetryPartition.cs:68-94 | the title count grows by one exactly when a non-blank title new to that author is added |
| Index.TitleCountBounds | Chinese/PoetryPartition.cs:68-69 | no row holds more titles than the count, and the count is zero exactly when every row is empty |
| Index.AddKeepsEntries | Chinese/PoetryPartition.cs:76-94 | `Add` keeps every filed title at its place, files its own title, and files nothing else |
| Index.TitlesGrow | Chinese/PoetryPartition.cs:76-94 | `Add` never removes a title from any author |
| Index.AddAllFacts | Chinese/PoetryPartition.cs:76-94 | an index built by successive `Add`s is valid, files every non-blank title under its author, and files nothing else |
| Index.TitleCountNamed | Chinese/PoetryPartition.cs:68-69 | naming the authors does not change the title count |
| Index.NamedAdd | Chinese/PoetryPartition.cs:384-401 | when names tell the authors apart, adding by author object and adding by author name agree |
| Index.ManifestRoundTrip | Chinese/PoetryPartition.cs:371-432 | reading the manifest entry written for a partition gives back its file name and named rows |
| Index.DecodeEncodedRows | Chinese/PoetryPartition.cs:380-425 | decoding the encoded rows of a valid index gives the rows back |
| Index.EncodedRow | Chinese/PoetryPartition.cs:419-424 | an encoded row starts with the author name and decodes to its key and titles |
| Index.AddEachFresh | Chinese/PoetryPartition.cs:398-401 | adding distinct titles under an author without a row appends exactly one row with those titles |
| Index.RowKey | Chinese/PoetryPartition.cs:384-386 | a manifest row's author name is used only when it is a non-empty string |
| Index.RowTitles | Chinese/PoetryPartition.cs:398-401 | the titles of a manifest row are its elements after the first, null where not a string |
| Index.AnyKeyIn | Chinese/PoetryPartition.cs:142-147 | true exactly when some row's author is in the list |
| Index.AnyRowMatchesQuery | Chinese/PoetryPartition.cs:154-159 | true exactly when some row's author name equals the query ignoring case or one of its titles contains it |
| Index.AnyRowMatchesQueries | Chinese/PoetryPartition.cs:166-171 | true exactly when some row's author name is in the list or one of its titles contains a query |
| Partition.TitleEntriesSnoc | Chinese/PoetryPartition.cs:338-346 | one more title adds one more listing entry exactly when the title is not blank |
| Partition.ListingLength | Chinese/PoetryPartition.cs:334-348 | the index listing has as many entries as the index has titles (the count of lines 68-69) |
| Partition.NamesIn | Chinese/PoetryPartition.cs:202-203 | the names of a list of authors, null entries included, position by position |
| Partition.FiledRecordMatchesRow | Chinese/PoetryPartition.cs:154-159 | a record that the cached search matches makes its index row answer the index query (the record test is the one of lines 211-217) |
| Partition.FiledRecordMatchesRowQueries | Chinese/PoetryPartition.cs:166-171 | the same for a query list (the record test is the one of lines 224-230) |
| Partition.PoetryFileInfo.FromRecords | Chinese/PoetryPartition.cs:42-46 | a partition over a file, with an empty index and the given records as its cache |
| Partition.PoetryFileInfo.WithLoader | Chinese/PoetryPartition.cs:53-57 | a partition with a loader, an empty index and no cache |
| Partition.PoetryFileInfo.Count | Chinese/PoetryPartition.cs:68-69 | `Count()` is the cache's length when cached; otherwise it bounds every row's titles and is zero exactly when every row is empty |
| Partition.PoetryFileInfo.Add | Chinese/PoetryPartition.cs:76-94 | the new index is the old one after `Add`; the cache is untouched |
| Partition.PoetryFileInfo.AnyAuthor | Chinese/PoetryPartition.cs:132-135 | true exactly when some row belongs to this author object |
| Partition.PoetryFileInfo.AnyAuthorIn | Chinese/PoetryPartition.cs:142-147 | false for a null list; otherwise true exactly when some row's author is in it |
| Partition.PoetryFileInfo.AnyQuery | Chinese/PoetryPartition.cs:154-159 | false for a blank query; otherwise true exactly when some row answers it |
| Partition.PoetryFileInfo.AnyQueryIn | Chinese/PoetryPartition.cs:166-171 | false for a null list; otherwise true exactly when some row answers it |
| Partition.PoetryFileInfo.AnyTitle | Chinese/PoetryPartition.cs:178-181 | true exactly when some indexed title passes the predicate |
| Partition.PoetryFileInfo.SearchCacheAuthor | Chinese/PoetryPartition.cs:188-192 | null exactly when uncached; otherwise the cached records by that author's name, in cache order |
| Partition.PoetryFileInfo.SearchCacheAuthors | Chinese/PoetryPartition.cs:199-204 | null when uncached or the list is null; otherwise the cached records whose author is named in the list, in order |
| Partition.PoetryFileInfo.SearchCacheQuery | Chinese/PoetryPartition.cs:211-217 | null when uncached; empty for a blank query; otherwise the cached records whose author equals the query or whose non-blank full title contains it, in order |
| Partition.PoetryFileInfo.SearchCacheQueries | Chinese/PoetryPartition.cs:224-230 | null when uncached; empty for a null list; otherwise the cached records matching the list, in order |
| Partition.PoetryFileInfo.SearchCacheWhere | Chinese/PoetryPartition.cs:237-240 | null when uncached; otherwise the cached records passing the predicate, in order |
| Partition.PoetryFileInfo.LoadOutcome | Chinese/PoetryPartition.cs:356-363 | what `LoadDataAsync` yields: only an uncached partition without a loader over an existing file can throw, and only a parse error; its records are reorganized |
| Partition.PoetryFileInfo.LoadData | Chinese/PoetryPartition.cs:356-363 | returns the cache, else the loader's records (null meaning none), else nothing for a missing file, else the parse; a success fills the cache, a failure leaves it; the index is untouched |
| Partition.PoetryFileInfo.ClearCache | Chinese/PoetryPartition.cs:312-315 | the cache is dropped and the index kept |
| Partition.PoetryFileInfo.CountIsListingLength | Chinese/PoetryPartition.cs:321-349 | `Count()` is the length of `EnumerableBasicInfo()`, cached or not (`Count` is lines 68-69) |
| Partition.PoetryFileInfo.EnumerableBasicInfo | Chinese/PoetryPartition.cs:321-349 | when cached, one entry (full title, author) per cached record; otherwise one entry per non-blank indexed title with its author's name, row by row |
| Partition.PoetryFileInfo.RecordInfos | Chinese/PoetryPartition.cs:323-331 | one entry per cached record, in order |
| Partition.PoetryFileInfo.IndexInfos | Chinese/PoetryPartition.cs:334-348 | the entries of all rows, row after row |
| Partition.PoetryFileInfo.TitleInfos | Chinese/PoetryPartition.cs:336-347 | the entries of one row: its non-blank titles, in order |
| Partition.PoetryFileInfo.ToJson | Chinese/PoetryPartition.cs:412-432 | for a file whose last path segment is non-blank and a valid index, the manifest entry reads back as that segment (`File.Name`) and the named rows |
| Partition.PoetryFileInfo.Parse | Chinese/PoetryPartition.cs:440-496 | the three-tier parse of the file: nothing for a null or missing file |
| Partition.PoetryFileInfo.ParseArray | Chinese/PoetryPartition.cs:446-451 | the array tier: reorganizes every element, throws on a null one |
| Partition.PoetryFileInfo.ParseLines | Chinese/PoetryPartition.cs:468-493 | the loop over lines is the line-mode specification |
| Partition.PoetryFileInfo.Create | Chinese/PoetryPartition.cs:371-406 | null exactly when the entry is null or names no file; otherwise a fresh partition over that file with a valid index whose named rows are the entry's decoded rows, every author resolved first-of-name in the registry, new authors appended |
| Partition.PoetryFileInfo.AddRows | Chinese/PoetryPartition.cs:381-403 | the loop over manifest rows builds exactly the decoded rows |
| Partition.PoetryFileInfo.AddItem | Chinese/PoetryPartition.cs:383-402 | one manifest row: skipped unless a non-empty array, otherwise its titles added under its resolved author |
| Partition.PoetryFileInfo.AddTitles | Chinese/PoetryPartition.cs:398-401 | the loop over a row's titles adds each under the row's author |
| Partition.PoetryFileInfo.AddCanonical | Chinese/PoetryPartition.cs:400 | adding under a first-of-name author is adding under its name |
| Partition.PoetryFileInfo.Resolve | Chinese/PoetryPartition.cs:384-396 | null for an empty name; the first author of that name when there is one; otherwise a fresh author with that name, appended |
| Collection.ListingOf | Chinese/PoetryCollection.cs:173-176 | an entry is listed exactly when some non-null partition lists it |
| Collection.ListingOfLength | Chinese/PoetryCollection.cs:173-176 | the collection listing has `Count()` entries (`Count` is lines 30-31) |
| Collection.CountAppend | Chinese/PoetryCollection.cs:30-31 | the count of two lists together is the sum of their counts |
| Collection.CountOf | Chinese/PoetryCollection.cs:30-31 | no present partition counts more than the total, and the total is zero exactly when every present partition counts zero |
| Collection.RemoveFile | Chinese/PoetryCollection.cs:197 | `RemoveAll(ele => ele.File == file)` throws `NullReferenceException` exactly when some entry is null; otherwise keeps, in order, exactly the entries for other files (the same removal is at line 212) |
| Collection.RemoveAbsentFile | Chinese/PoetryCollection.cs:197 | removing a file no entry has changes nothing |
| Collection.RemoveFileFiles | Chinese/PoetryCollection.cs:197 | after the removal the file is gone and every other file is still there |
| Collection.AddKeepsFilesDistinct | Chinese/PoetryCollection.cs:194-199 | remove-then-add keeps at most one partition per file |
| Collection.GatherOk | Chinese/PoetryCollection.cs:399-409 | the first phase succeeds exactly when no selected entry is null or fails to load, and then yields the selected loads in order |
| Collection.Stop | Chinese/PoetryCollection.cs:401-407 | the position where the loop stops: no view before it fails, and the view at it fails unless it is the end |
| Collection.GatherStop | Chinese/PoetryCollection.cs:399-409 | the first phase succeeds exactly when the loop reaches the end, and otherwise throws what the view at the stopping position throws |
| Collection.CacheHitsMembers | Chinese/PoetryCollection.cs:151-152 | a record is a hit exactly when some entry's `SearchCache` returns it |
| Collection.CacheHitsExactly | Chinese/PoetryCollection.cs:148-167 | a record is a hit exactly when it matches the search and is in some entry's cache |
| Collection.HitsExactly | Chinese/PoetryPartition.cs:188-230 | one partition's `SearchCache` answer holds exactly its cached records that match |
| Collection.AsWrittenNeedsEveryCache | Chinese/PoetryCollection.cs:123-139 | the author searches' second phase as written succeeds exactly when every entry is present and cached |
| Collection.AsWrittenAgrees | Chinese/PoetryCollection.cs:123-139 | when it succeeds, it agrees with the corrected second phase |
| Collection.UnmentioningFileBreaksAuthorSearch | Chinese/PoetryCollection.cs:123-127 | an uncached partition whose index does not mention the author is skipped by the first phase, and then makes the second phase as written throw |
| Collection.CoveredRecordPasses | Chinese/PoetryCollection.cs:148-153 | a record of a partition whose index covers its file makes that partition pass the query test, so it is loaded |
| Collection.CoveredRecordPassesQueries | Chinese/PoetryCollection.cs:162-167 | the same for a query list |
| Collection.Handled | Chinese/PoetryCollection.cs:218-219 | every record as the handler leaves it, in order |
| Collection.NoHandler | Chinese/PoetryCollection.cs:219 | without a handler the records are unchanged |
| Collection.IndexFromKeys | Chinese/PoetryCollection.cs:216-250 | filing every record's full title under an author that fits its author name, and nothing else, covers the records and is sound for them |
| Collection.IndexedRecords | Chinese/PoetryCollection.cs:216-250 | the index `LoadFileAsync` builds is valid, covers the records and only refers to registry authors |
| Collection.DistinctSnoc | Chinese/PoetryCollection.cs:225-243 | an author appended because no name matched keeps the registry's new names distinct |
| Collection.AsWrittenNeverRecordsAnId | Chinese/PoetryCollection.cs:297-298 | as written, an author has an id after the merge exactly when it had one before; an author without an id given id "1" keeps none |
| Collection.Target | Chinese/PoetryCollection.cs:273-295 | the first author with a non-empty id when one has it; otherwise the first with the name, or a new position exactly when no author has the name |
| Collection.TargetInRegistry | Chinese/PoetryCollection.cs:273-295 | on a registry's values, the target is the first author with the id, else the first with the name, else the end of the registry |
| Collection.HeldBy | Chinese/PoetryCollection.cs:295-300 | the id, name and introduction of every registry author, position by position |
| Collection.MergeInto | Chinese/PoetryCollection.cs:273-300 | one merge: the target takes the name and introduction, its id is merged, a new target is appended, every other author keeps its values |
| Collection.MergeOne | Chinese/PoetryCollection.cs:269-301 | one item: merged exactly when accepted; a skipped item changes nothing; an accepted one updates its target with the trimmed name, the first introduction field and the merged id, and nothing else |
| Collection.MergeAll | Chinese/PoetryCollection.cs:266-302 | the loop on values: the registry only grows |
| Collection.MergeAllCount | Chinese/PoetryCollection.cs:266-302 | the merge reports one position per accepted item (an object with a non-blank name, lines 269-271) |
| Collection.MergeAllShape | Chinese/PoetryCollection.cs:266-302 | every reported position holds a named author; a position no item merged into keeps its value; every position past the start was merged into |
| Collection.MergeNext | Chinese/PoetryCollection.cs:267-302 | the merge of one more item continues the fold of the items before it |
| Collection.MergeIntoUpdates | Chinese/PoetryCollection.cs:295-300 | the corrected merge overwrites the target's values, a blank appended author's when the target is new |
| Collection.DistinctGrow | Chinese/PoetryCollection.cs:278-294 | a registry that gains only an author not already in it keeps its objects distinct |
| Collection.AsWrittenKeepsIdsEmpty | Chinese/PoetryCollection.cs:297-298 | as written, merging any side-file into a registry without ids leaves every author without an id |
| Collection.CorrectedRecordsId | Chinese/PoetryCollection.cs:297-298 | with the corrected guard, one item with an id gives its author that id |
| Collection.MergeOneRecordsId | Chinese/PoetryCollection.cs:297-298 | with the corrected guard, an item with an id merged into authors without ids gives its target that id |
| Collection.MergedId | Chinese/PoetryCollection.cs:297-298 | corrected: an existing id is kept, and a supplied id is recorded when the author has none |
| Collection.MergedIdAsWritten | Chinese/PoetryCollection.cs:297-298 | as written: an existing id is kept, and an author without an id still has none after the merge |
| Collection.IdMerge | Chinese/PoetryCollection.cs:297-298 | both rules keep an existing id; as written the author has an id exactly when it had one, corrected exactly when it had one or one was supplied |
| Collection.KeysCanonicalExtends | Chinese/PoetryPartition.cs:384-395 | growing the registry keeps every manifest author first-of-name |
| Collection.PoetryCollection.constructor | Chinese/PoetryCollection.cs:23-24 | a new collection has no partitions and no authors |
| Collection.PoetryCollection.Of | Chinese/PoetryCollection.cs:23-24 | a collection over the given partitions and registry |
| Collection.PoetryCollection.Parse | Chinese/PoetryCollection.cs:377-390 | null for a null or missing file; `JsonException` for a malformed one; `NullReferenceException` for a `null` document; otherwise a fresh collection with one entry per array element, null for elements that are not manifest objects, all over one registry |
| Collection.PoetryCollection.CreateAll | Chinese/PoetryCollection.cs:383-387 | one entry per element, null exactly when it is not a manifest, each restored from its manifest with first-of-name authors |
| Collection.PoetryCollection.CreateStep | Chinese/PoetryCollection.cs:385-386 | one more element: appended restored entry, registry only grows |
| Collection.PoetryCollection.LoadDataWhere | Chinese/PoetryCollection.cs:399-409 | loads the entries passing the test, in order: the result is the first-phase walk, a success exactly when it reaches the end; skipped entries keep their caches; the entries selected before the stopping position hold their loads; the entry at it and those after it not listed before it keep their caches; indexes stay as they were (the predicate overload at lines 109-115 calls it) |
| Collection.PoetryCollection.Walk | Chinese/PoetryCollection.cs:401-407 | the `foreach` loop: it yields the walk and leaves every entry as the first phase stopped at the first failing view describes |
| Collection.PoetryCollection.SearchWhere | Chinese/PoetryCollection.cs:109-115 | a null predicate gives no records and changes no cache; otherwise the first phase over the entries passing it, with the cache facts of `LoadDataWhere` |
| Collection.PoetryCollection.LoadData | Chinese/PoetryCollection.cs:399-409 | succeeds exactly when every entry is present and loads, and then every entry is cached with its load; the entries before the first null or failing one are cached with their loads, and that one and those after it not listed before it keep their caches |
| Collection.PoetryCollection.SearchCached | Chinese/PoetryCollection.cs:148-167 | a first-phase failure is the result; otherwise the hits of every cache, and every matching record of a passing partition is among them |
| Collection.PoetryCollection.SearchQuery | Chinese/PoetryCollection.cs:148-153 | results are matching records from some cache; every matching record of a covering partition is found |
| Collection.PoetryCollection.SearchQueries | Chinese/PoetryCollection.cs:162-167 | the same for a query list |
| Collection.PoetryCollection.SearchAuthor | Chinese/PoetryCollection.cs:123-127 | corrected: results are records by the author's name from some cache; every such record of a partition indexing the author is found |
| Collection.PoetryCollection.SearchAuthorAsWritten | Chinese/PoetryCollection.cs:123-127 | as written: the second phase over every entry, throwing on an uncached or null one |
| Collection.PoetryCollection.SearchAuthors | Chinese/PoetryCollection.cs:135-139 | corrected, for a list of authors |
| Collection.PoetryCollection.SearchAuthorsAsWritten | Chinese/PoetryCollection.cs:135-139 | as written, for a list of authors |
| Collection.PoetryCollection.LoadFile | Chinese/PoetryCollection.cs:209-253 | null for a missing file; otherwise the remove-by-file step, then the parse; on success a fresh partition over the file, appended, cached when asked, whose index is valid, covers the handled records and is sound, over registry authors that only grow |
| Collection.PoetryCollection.LoadFileUnhandled | Chinese/PoetryCollection.cs:185-188 | loading without a handler: as above, and the partition covers its file's later loads |
| Collection.PoetryCollection.IndexFile | Chinese/PoetryCollection.cs:213-250 | the new partition over parsed records: cache as asked, covering and sound index |
| Collection.PoetryCollection.ResolveAuthor | Chinese/PoetryCollection.cs:219-243 | null for a blank author name; otherwise the first registry author whose name fits ignoring case (`FirstOrDefault`), or, when none fits, a fresh author of that name appended to the registry |
| Collection.PoetryCollection.Register | Chinese/PoetryCollection.cs:227-243 | a fresh author with the record's author name is appended and is then the first fit of that name; the collection is unchanged |
| Collection.PoetryCollection.FirstFound | Chinese/PoetryCollection.cs:225 | the first author `GetAuthorByName` lists for a name is the first fit of that name |
| Collection.PoetryCollection.FirstFitAppended | Chinese/PoetryCollection.cs:227-243 | an author appended for a name that no registry author fits is the first fit of that name |
| Collection.FirstFittingIs | Chinese/PoetryCollection.cs:225 | the first-fit position is the fitting position before which no position fits |
| Collection.PoetryCollection.IndexRecords | Chinese/PoetryCollection.cs:216-250 | the loop over records builds the index of successive `Add`s under fitting authors |
| Collection.PoetryCollection.IndexStep | Chinese/PoetryCollection.cs:217-249 | one record: its full title added under its resolved author |
| Collection.PoetryCollection.Locate | Chinese/PoetryCollection.cs:272-295 | the author at the merge target: found by id, else by name, else a fresh author appended; nothing else changes |
| Collection.PoetryCollection.AddAuthor | Chinese/PoetryCollection.cs:278-294 | a fresh author without values is appended |
| Collection.PoetryCollection.Assign | Chinese/PoetryCollection.cs:297-300 | the author takes the name, the introduction and the corrected id; on distinct authors the registry's values change at that author only |
| Collection.PoetryCollection.MergeNamed | Chinese/PoetryCollection.cs:272-300 | corrected id rule (`MergeAll(…, false)`): one accepted item: the author at the target of the merge on values, which on distinct authors the registry then holds exactly |
| Collection.PoetryCollection.MergeItem | Chinese/PoetryCollection.cs:269-301 | corrected id rule (`MergeAll(…, false)`): an item is merged exactly when it is an object with a non-blank name; the merged author has the trimmed name and the first of intro, desc, introduction, description; it sits at the position the merge on values reports, and on distinct authors the registry holds exactly that merge's values |
| Collection.PoetryCollection.MergeItems | Chinese/PoetryCollection.cs:266-302 | corrected id rule (`MergeAll(…, false)`): one merged author per accepted item; the registry only grows; existing ids are kept; on distinct authors the registry holds exactly the values of the merge loop, and the result lists the authors at the positions it reports |
| Collection.PoetryCollection.MergeStep | Chinese/PoetryCollection.cs:267-302 | corrected id rule (`MergeAll(…, false)`): one item of the loop: the result list grows by one exactly for an accepted item; on distinct authors the registry holds exactly the values after merging it |
| Collection.PoetryCollection.MergeLoop | Chinese/PoetryCollection.cs:266-302 | corrected id rule: the loop over items computes the corrected fold `MergeAll(…, false)` of them, with each result at its reported position |
| Collection.PoetryCollection.LoadAuthorsFile | Chinese/PoetryCollection.cs:261-305 | corrected id rule (`MergeAll(…, false)`): null for a missing file; `JsonException` for malformed; `NullReferenceException` for `null`; otherwise one registry author per accepted item, and on distinct authors the registry holds exactly the values of the merge of the file's items, the result listing the authors at the positions it reports |
| Collection.PoetryCollection.Generate | Chinese/PoetryCollection.cs:332-369 | null for a null folder; fails exactly when an existing listed file fails to parse; otherwise one unloaded partition per existing file; the manifest is written exactly when the output name is not blank, and holds each partition's entry |
| Collection.PoetryCollection.GenerateMenu | Chinese/PoetryCollection.cs:336-340 | the loop over listed files: one partition per existing file, none cached |
| Collection.PoetryCollection.GenerateStep | Chinese/PoetryCollection.cs:339 | one listed file |
| Collection.PoetryCollection.GenerateExisting | Chinese/PoetryCollection.cs:339 | one existing listed file replaces any partition for it |
| Collection.PoetryCollection.ReplacedFiles | Chinese/PoetryCollection.cs:212-251 | replacing a file's partition keeps one partition per file and adds that file |
| Collection.PoetryCollection.EnumerableBasicInfo | Chinese/PoetryCollection.cs:173-176 | an entry is listed exactly when some present partition lists it |
| Collection.PoetryCollection.ListingLength | Chinese/PoetryCollection.cs:173-176 | the listing has `Count()` entries (`Count` is lines 30-31) |
| Collection.PoetryCollection.Count | Chinese/PoetryCollection.cs:30-31 | no present partition counts more than the collection, and the collection counts zero exactly when every present partition does |
| Collection.PoetryCollection.GetAuthorById | Chinese/PoetryCollection.cs:61-65 | null for a blank id; otherwise null exactly when no author has that id, else the first author that has it |
| Collection.PoetryCollection.NoIdsNoneFound | Chinese/PoetryCollection.cs:61-65 | after side-file merges as written (lines 297-298) into a registry without ids, no author is found by id |
| Collection.PoetryCollection.GetAuthorByName | Chinese/PoetryCollection.cs:72-76 | null exactly for a blank name; otherwise the authors whose name equals it ignoring case, in registry order, one per registry position |
| Collection.PoetryCollection.GetAuthorByNames | Chinese/PoetryCollection.cs:83-87 | null exactly for a null list; otherwise the authors whose name `Contains` finds in it, in registry order, one per registry position |
| Collection.PoetryCollection.NameFlags | Chinese/PoetryCollection.cs:75 | the test `Where` applies to each registry author: its name equals the given one ignoring case |
| Collection.PoetryCollection.NamesFlags | Chinese/PoetryCollection.cs:86 | the test `Where` applies to each registry author: `Contains` finds its name in the list |
| Collection.PoetryCollection.GetAuthorByFourNames | Chinese/PoetryCollection.cs:97-101 | the four-name overload is the list overload on those four names |
| Collection.PoetryCollection.NameOverloadsAgree | Chinese/PoetryCollection.cs:72-87 | the list overload on one non-blank name agrees with the single-name overload |
| Collection.PoetryCollection.Add | Chinese/PoetryCollection.cs:194-199 | null is ignored; a partition without a file is appended; otherwise the partitions for its file are removed first, and a null entry makes that throw |
| Collection.PoetryCollection.ToJsonArray | Chinese/PoetryCollection.cs:311-322 | one manifest entry per present partition, in order |
| Pool.AsCaocao | Chinese/PoetryPool.cs:359 | the Caocao handler sets the author to 曹操 and keeps every other field |
| Pool.PlanOf | Chinese/PoetryPool.cs:92-360 | every manifest plan has a non-blank output name; only the Song plan merges its authors into another slot (Tang); only Caocao has a handler |
| Pool.LoadOrder | Chinese/PoetryPool.cs:370-381 | every corpus is in the load order, once |
| Pool.Lookups | Chinese/PoetryPool.cs:527-530 | the multi-file loader looks up each file name in the plan, in order |
| Pool.Replaced | Chinese/PoetryCollection.cs:212-251 | reloading a file keeps one partition per file and adds the file |
| Pool.FoundInStep | Chinese/PoetryPool.cs:527-530 | one more file looked up adds it exactly when it exists |
| Pool.GroupedRecordsMembers | Chinese/PoetryPool.cs:298 | the Tang 300 records are exactly the records of the groups present |
| Pool.ChapteredRecord | Chinese/PoetryPool.cs:310-316 | the dizigui rewrite: title becomes "container title · chapter", chapter cleared, the rest kept, the record reorganized; without section or tune its full title is that trimmed title |
| Pool.RewriteChapters | Chinese/PoetryPool.cs:310-316 | the loop rewrites each non-null record, in order |
| Pool.LoadDizigui | Chinese/PoetryPool.cs:303-319 | when the file decodes with content, one fresh partition with the rewritten records replaces any for the file; otherwise nothing changes |
| Pool.BuildMenu | Chinese/PoetryPool.cs:99-100 | the manifest when found, else a menu generated from the listing; `JsonException`, `NullReferenceException` and null exactly in the source's cases; written exactly when generated (`ParseFileMenuAsync` is lines 495-498) |
| Pool.MergeSideFile | Chinese/PoetryPool.cs:101 | a null target throws; otherwise the side-file's error, with the registry only growing (the same call is at lines 150, 169 and 197) |
| Pool.LoadSingleFile | Chinese/PoetryPool.cs:500-518 | a `JsonException` gives the empty collection; any other parse error escapes; a found file that parses gives one cached partition |
| Pool.LoadSeveralFiles | Chinese/PoetryPool.cs:520-538 | throws exactly when a found file fails to parse; otherwise one cached partition per found file |
| Pool.LoadNext | Chinese/PoetryPool.cs:527-530 | one file of that loop |
| Pool.Untouched | Chinese/PoetryPool.cs:19-79 | slots other than the one assigned keep their values |
| Pool.PoetryPool.constructor | Chinese/PoetryPool.cs:19-79 | all slots empty |
| Pool.PoetryPool.Reset | Chinese/PoetryPool.cs:104-107 | the `catch (JsonException)` rule: the slot becomes a fresh empty collection (the same handler is at lines 130-133, 172-175 and 200-203) |
| Pool.PoetryPool.LoadMenu | Chinese/PoetryPool.cs:92-208 | a filled slot is returned unless forced; otherwise the menu, the side-file merge into the receiving slot, and every error path: JSON errors give an empty collection, a missing receiver throws `NullReferenceException`, no manifest and no folder give null (Tang 92-112, Huajian 120-138, Song 160-180, Song lyrics 188-208) |
| Pool.PoetryPool.RebuildMenu | Chinese/PoetryPool.cs:95-107 | the reload part of a menu accessor (Song: lines 163-175) |
| Pool.PoetryPool.FinishMenu | Chinese/PoetryPool.cs:99-102 | storing the menu and merging the side-file into the receiver (Song: lines 167-170) |
| Pool.PoetryPool.LoadSingle | Chinese/PoetryPool.cs:146-152 | a filled slot is returned unless forced; otherwise one cached partition for the found file, the side-file merged, errors as in the single-file loader (the same shape for Yuan, Analects, Book of Songs, Chu and Caocao at lines 216-256 and 356-360) |
| Pool.PoetryPool.LoadSeveral | Chinese/PoetryPool.cs:264-273 | a filled slot is returned unless forced; otherwise one cached partition per found file, or the escaping parse error |
| Pool.PoetryPool.LoadPrimate | Chinese/PoetryPool.cs:281-348 | the four files, then Tang 300 into its own field and the rewritten dizigui partition appended, when each decodes |
| Pool.PoetryPool.PrimateExtras | Chinese/PoetryPool.cs:291-345 | the two extras: a JSON error in the first skips the second |
| Pool.PoetryPool.LoadTangPoems300 | Chinese/PoetryPool.cs:294-301 | the Tang 300 partition holds the grouped records when the file decodes with groups |
| Pool.PoetryPool.Load | Chinese/PoetryPool.cs:92-360 | dispatch to the accessor of a corpus: only the Song and Huajian slots can end up null |
| Pool.PoetryPool.Step | Chinese/PoetryPool.cs:370-381 | one accessor of the load order fills its slot |
| Pool.PoetryPool.StepSong | Chinese/PoetryPool.cs:372 | the Song accessor's place in the order |
| Pool.PoetryPool.LoadFiles | Chinese/PoetryPool.cs:368-382 | the accessors are called in the source's order, each after the previous one succeeds; on success every slot except Song and Huajian is filled; unforced with all slots filled nothing changes |
| Pool.PoetryPool.LoadFront | Chinese/PoetryPool.cs:370-372 | Primate, Tang and Song, in that order |
| Pool.PoetryPool.LoadMiddle | Chinese/PoetryPool.cs:373-377 | lyrics, Yuan, Book of Songs, then the classics |
| Pool.PoetryPool.LoadClassics | Chinese/PoetryPool.cs:376-377 | Four Books and Five Classics, then the Analects |
| Pool.PoetryPool.LoadBack | Chinese/PoetryPool.cs:378-381 | Chu, Huajian, Southern Tang, Caocao |
| Pool.PoetryPool.Store | Chinese/PoetryPool.cs:19-79 | assigning a slot: null empties it |

## Left out

- `GetRootDirectory`, `GetFileInfo` and `GetDirectoryInfo` (`Chinese/PoetryPool.cs:384-473`) search the file system. The `Disk` value stands for their results.
- The semaphore, `async`/`await` and cancellation tokens are not modelled; every call runs to completion in program order.
- Culture-aware comparison is not modelled beyond ASCII case folding; `StartsWith` is ordinal.
- The write of a generated manifest is returned as an output value. Its I/O errors, which the source swallows, are not modelled.
- `PoetryCollection.GetAuthors`'s retry on `InvalidOperationException`, and the retries around `authors.Add`, guard against concurrent modification; without concurrency they return the list and add once.
- The `PoetryFileInfo` helpers `GetAuthors`, `GetAuthorById`, `GetAuthorByName` and `GetPoetryTitles` (`Chinese/PoetryPartition.cs:100-124`, `Chinese/PoetryPartition.cs:294-309`) are not modelled. No other member of the core calls them.
- The `PoetryFileInfo.SearchAsync` overloads (`Chinese/PoetryPartition.cs:248-291`) are not modelled as separate members: each is `LoadDataAsync()` followed by `SearchCache`, and both are modelled.
- The `JsonObject` conversions of `AuthorInfo` and `AuthorPoetry` (`Chinese/AuthorInfo.cs:50-59`, `Chinese/PoetryPartition.cs:537-545`) are not modelled. The manifest writer does not use them.
- `Program.cs` is not part of this model.
- LINQ laziness is not modelled.
  - Results are computed eagerly. The exception that the as-written author search raises on enumeration is shown as `ArgumentNullException`, whatever the consumer's exact exception.
  - The dizigui rewrite's `Select` runs once: the partition constructor copies it into a list (`Chinese/PoetryPartition.cs:45`).
- `LoadPrimateSchoolAsync` swallows I/O, access, JSON and argument errors in its extras (`Chinese/PoetryPool.cs:321-341`). The model covers two of these: a listed file that is missing, and a malformed three-hundred-poems file. Both abort the extras block. The other errors have no counterpart in the `Disk` value.
- `FileInfo.Name` is taken to split a path at both `/` and `\`, as on Windows; elsewhere .NET splits at `/` only.
- The loader function of a partition, and the record handler, are pure functions of their inputs.
- Model.PoetryModel.ToString: a line break is passed in for `Environment.NewLine`.
- Pool.PoetryPool.Load: states the slot and frame facts for every corpus and leaves the per-accessor detail to the accessor methods it calls.
- Pool.PoetryPool.LoadTangPoems300: a decoded group holds records, never null ones. The source keeps a null record of a group in the partition's cache (`Chinese/PoetryPool.cs:298-300`), and `EnumerableBasicInfo` then skips it (`Chinese/PoetryPartition.cs:323-331`). This model does not have that case.
- Collection.PoetryCollection.MergeItems: its equations with the merge on values (`Collection.MergeAll`) hold when the registry holds no author object twice. The default constructor starts with an empty registry, and every append adds a fresh object (`ResolveAuthor`, `AddAuthor`), so every registry built by the source keeps that property. `Of` accepts any registry, so the condition is stated where it is used (also for `MergeItem`, `MergeStep`, `MergeNamed` and `LoadAuthorsFile`).
- Pool.PoetryPool.Step: states that a success fills the slot, not what it holds; the accessor methods state the content.
- Collection.PoetryCollection.LoadAuthorsFile: merges with the corrected id rule of the second Findings row (`Collection.MergedId`), not the `!!` guard of `Chinese/PoetryCollection.cs:297`. An author without an id that a side-file gives an id records it here, and the source never records it; a later `GetAuthorById` then finds the author here and not in the source. The rule as written is modelled on values only (`Collection.MergeAll(…, true)`, `Collection.AsWrittenKeepsIdsEmpty`, `Collection.PoetryCollection.NoIdsNoneFound`).
- Collection.PoetryCollection.MergeItems: runs the corrected id rule, as `LoadAuthorsFile` does.
- Collection.PoetryCollection.MergeLoop: computes the corrected fold `MergeAll(…, false)`, not the fold with the `!!` guard.
- Collection.PoetryCollection.MergeStep: one step of the corrected fold.
- Collection.PoetryCollection.MergeItem: the merged author's id follows the corrected rule.
- Collection.PoetryCollection.MergeNamed: the registry is tied to the corrected merge.
- Collection.PoetryCollection.Assign: writes the corrected id.
- Pool.MergeSideFile: every pool accessor that merges a side-file (`Chinese/PoetryPool.cs:101`, 150, 169, 197) merges it with the corrected id rule, through `LoadAuthorsFile`.
- Collection.CountOf: the total is an unbounded integer. The source's `Sum` (`Chinese/PoetryCollection.cs:31`) is checked `int` arithmetic and throws `OverflowException` past 2^31-1; that exception is not modelled. The same holds for `Collection.PoetryCollection.Count` and `Partition.PoetryFileInfo.Count` (`Chinese/PoetryPartition.cs:69`).
- Collection.PoetryCollection.Count: see `Collection.CountOf`; no overflow.
- Partition.PoetryFileInfo.Count: the index's title count is unbounded; no overflow.
- Collection.PoetryCollection.SearchWhere: the caller's `Func<PoetryFileInfo, bool>` (`Chinese/PoetryCollection.cs:109`) is a function of the entry reference that reads no state and never throws. A C# predicate can read an entry's index or cache, or throw. With a predicate that reads the cache, the source's test-then-load order and the model's all-verdicts-first order can differ.
- Collection.PoetryCollection.LoadDataWhere: takes its tests, like `SearchWhere`'s predicate, to read no state that loading changes, and takes each verdict before the first load.
- Collection.PoetryCollection.LoadFile: each record is filed under an author that fits its author name ignoring case. That this author is the first fitting one in the registry is stated of `ResolveAuthor`, for each call, and not carried through the indexing loop (`IndexFile`, `IndexRecords`, `IndexStep`).

## Findings

| source | as written | input that shows it | evidently intended | confidence | as-written member | corrected member |
|---|---|---|---|---|---|---|
| Chinese/PoetryCollection.cs:123-139 | the author searches take `SelectMany(ele => ele.SearchCache(author))` over every entry, and `SearchCache` is null for an uncached partition, so enumerating the result throws | a collection with one uncached partition whose index does not mention the author; the first phase skips it, leaving it uncached | skip null entries and treat a null `SearchCache` as empty, as the query overloads at lines 148-167 do | not executed | Collection.UnmentioningFileBreaksAuthorSearch | Collection.PoetryCollection.SearchAuthor |
| Chinese/PoetryCollection.cs:297 | `IsNullOrEmpty(author.Id) && !!IsNullOrEmpty(id)` copies the id only when both are empty, so a supplied id is never recorded | an author with no id, and a side-file item for that author with id "1"; the author keeps no id | record the supplied id when the author has none: `IsNullOrEmpty(author.Id) && !IsNullOrEmpty(id)` | not executed | Collection.AsWrittenNeverRecordsAnId | Collection.MergedId |
