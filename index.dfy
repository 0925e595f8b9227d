/**
 * The sparse per-file index of Chinese/PoetryPartition.cs: an ordered list of rows, one
 * per author, each holding the titles of that author's records in the file. Rows are
 * written generically over their key so the same logic serves author objects and names.
 */
module Index {
  import opened Wrappers
  import opened Text
  import opened Authors
  import opened Seqs
  import opened Json
  import opened Matching

  /** One index row (`AuthorPoetry`): a key and the titles filed under it. */
  datatype Row<K> = Row(key: K, poetry: seq<string>)

  /** The index of the file: rows keyed by author object, `null` allowed. */
  type AuthorPoetry = Row<AuthorInfo?>

  /** The position of the first row with key `k`. */
  function RowOf<K(==)>(rows: seq<Row<K>>, k: K): (r: Option<nat>)
    ensures r.Some? ==> r.value < |rows| && rows[r.value].key == k
    ensures r.Some? ==> forall j :: 0 <= j < r.value ==> rows[j].key != k
    ensures r.None? <==> forall j :: 0 <= j < |rows| ==> rows[j].key != k
  {
    if rows == [] then None
    else if rows[0].key == k then Some(0)
    else
      var r := RowOf(rows[1..], k);
      assert forall j :: 1 <= j < |rows| ==> rows[j] == rows[1..][j - 1];
      if r.Some? then Some(r.value + 1) else None
  }

  /** The titles filed under `k`, empty when there is no row for it. */
  function TitlesOf<K(==)>(rows: seq<Row<K>>, k: K): seq<string> {
    var r := RowOf(rows, k);
    if r.Some? then rows[r.value].poetry else []
  }

  /** A title list after adding `t`: appended only when absent. */
  function AddTitle(titles: seq<string>, t: string): seq<string> {
    if t in titles then titles else titles + [t]
  }

  /** The index after `Add(k, title)`. */
  function AddToIndex<K(==)>(rows: seq<Row<K>>, k: K, title: Option<string>): seq<Row<K>> {
    if IsBlank(title) then rows
    else
      match RowOf(rows, k)
      case None => rows + [Row(k, [title.value])]
      case Some(i) => rows[i := rows[i].(poetry := AddTitle(rows[i].poetry, title.value))]
  }

  /** A row's titles: at least one, none blank, no duplicates. */
  predicate TitlesValid(ts: seq<string>) {
    |ts| > 0
    && (forall i :: 0 <= i < |ts| ==> !IsBlank(Some(ts[i])))
    && (forall i, j :: 0 <= i < j < |ts| ==> ts[i] != ts[j])
  }

  /** At most one row per key, and every row's titles valid. */
  predicate IndexValid<K(==)>(rows: seq<Row<K>>) {
    (forall i, j :: 0 <= i < j < |rows| ==> rows[i].key != rows[j].key)
    && (forall i :: 0 <= i < |rows| ==> TitlesValid(rows[i].poetry))
  }

  /** A blank title leaves the index as it is. */
  lemma AddBlankTitle<K>(rows: seq<Row<K>>, k: K, title: Option<string>)
    requires IsBlank(title)
    ensures AddToIndex(rows, k, title) == rows
  {
  }

  /** `Add` keeps one row per key and duplicate-free, non-blank titles. */
  lemma AddPreservesValid<K>(rows: seq<Row<K>>, k: K, title: Option<string>)
    requires IndexValid(rows)
    ensures IndexValid(AddToIndex(rows, k, title))
  {
    if !IsBlank(title) {
      var t := title.value;
      match RowOf(rows, k)
      case None =>
      case Some(i) =>
        var ts := rows[i].poetry;
        if t !in ts {
          var ts' := ts + [t];
          forall a, b | 0 <= a < b < |ts'| ensures ts'[a] != ts'[b] {
            if b == |ts| {
              assert ts'[a] == ts[a];
            }
          }
        }
    }
  }

  /** What `Add(k, t)` does to the rows, spelled out key by key. */
  lemma AddEffect<K>(rows: seq<Row<K>>, k: K, t: string, other: K)
    requires !IsBlank(Some(t)) && other != k
    ensures TitlesOf(AddToIndex(rows, k, Some(t)), k) == AddTitle(TitlesOf(rows, k), t)
    ensures TitlesOf(AddToIndex(rows, k, Some(t)), other) == TitlesOf(rows, other)
    ensures RowOf(rows, k).None? ==> AddToIndex(rows, k, Some(t)) == rows + [Row(k, [t])]
    ensures RowOf(rows, k).Some? ==> |AddToIndex(rows, k, Some(t))| == |rows|
  {
    var after := AddToIndex(rows, k, Some(t));
    match RowOf(rows, k)
    case None =>
      assert after[..|rows|] == rows;
      RowOfAppend(rows, Row(k, [t]), k);
      RowOfAppend(rows, Row(k, [t]), other);
    case Some(i) =>
      RowOfUpdate(rows, i, after[i], k);
      RowOfUpdate(rows, i, after[i], other);
  }

  /** The first row with key `k` is where `RowOf` points. */
  lemma RowOfIs<K>(rows: seq<Row<K>>, k: K, i: nat)
    requires i < |rows| && rows[i].key == k && forall j :: 0 <= j < i ==> rows[j].key != k
    ensures RowOf(rows, k) == Some(i)
  {
    var r := RowOf(rows, k);
    assert r.Some?;
    assert !(r.value < i) && !(i < r.value);
  }

  /** `Add` keeps every existing row's key in place and can only append a row for its own key. */
  lemma AddKeys<K>(rows: seq<Row<K>>, k: K, title: Option<string>)
    ensures var after := AddToIndex(rows, k, title);
            |rows| <= |after| <= |rows| + 1
            && (forall i :: 0 <= i < |rows| ==> after[i].key == rows[i].key)
            && (forall i :: |rows| <= i < |after| ==> after[i].key == k)
  {
  }

  lemma RowOfAppend<K>(rows: seq<Row<K>>, row: Row<K>, k: K)
    ensures RowOf(rows + [row], k) == if RowOf(rows, k).Some? then RowOf(rows, k)
                                      else if row.key == k then Some(|rows|) else None
  {
    var all := rows + [row];
    var r := RowOf(rows, k);
    if r.Some? {
      forall j | 0 <= j < r.value ensures all[j].key != k {
        assert all[j] == rows[j];
      }
      assert all[r.value] == rows[r.value];
      RowOfIs(all, k, r.value);
    } else {
      forall j | 0 <= j < |rows| ensures all[j].key != k {
        assert all[j] == rows[j];
      }
      if row.key == k {
        RowOfIs(all, k, |rows|);
      } else {
        forall j | 0 <= j < |all| ensures all[j].key != k {
          if j < |rows| { assert all[j] == rows[j]; }
        }
      }
    }
  }

  lemma RowOfUpdate<K>(rows: seq<Row<K>>, i: nat, row: Row<K>, k: K)
    requires i < |rows| && row.key == rows[i].key
    ensures RowOf(rows[i := row], k) == RowOf(rows, k)
  {
    var r := RowOf(rows[i := row], k);
    var s := RowOf(rows, k);
    assert forall j :: 0 <= j < |rows| ==> rows[i := row][j].key == rows[j].key;
    if r.Some? && s.Some? {
      assert !(r.value < s.value) && !(s.value < r.value);
    }
  }

  /** The number of titles in the index. */
  function TitleCount<K(==)>(rows: seq<Row<K>>): nat {
    if rows == [] then 0 else TitleCount(rows[..|rows| - 1]) + |rows[|rows| - 1].poetry|
  }

  /** No row holds more titles than the whole index, and the index is empty of titles exactly when every row is. */
  lemma {:induction false} TitleCountBounds<K>(rows: seq<Row<K>>)
    ensures forall i :: 0 <= i < |rows| ==> |rows[i].poetry| <= TitleCount(rows)
    ensures TitleCount(rows) == 0 <==> forall i :: 0 <= i < |rows| ==> rows[i].poetry == []
    decreases |rows|
  {
    if rows != [] {
      var init := rows[..|rows| - 1];
      TitleCountBounds(init);
      assert forall i :: 0 <= i < |init| ==> init[i] == rows[i];
    }
  }

  lemma {:induction false} TitleCountAppend<K>(rows: seq<Row<K>>, more: seq<Row<K>>)
    ensures TitleCount(rows + more) == TitleCount(rows) + TitleCount(more)
    decreases |more|
  {
    if more == [] {
      assert rows + more == rows;
    } else {
      var last := more[|more| - 1];
      assert (rows + more)[..|rows + more| - 1] == rows + more[..|more| - 1];
      TitleCountAppend(rows, more[..|more| - 1]);
    }
  }

  lemma TitleCountUpdate<K>(rows: seq<Row<K>>, i: nat, row: Row<K>)
    requires i < |rows|
    ensures TitleCount(rows[i := row]) == TitleCount(rows) - |rows[i].poetry| + |row.poetry|
  {
    assert rows == rows[..i] + [rows[i]] + rows[i + 1..];
    assert rows[i := row] == rows[..i] + [row] + rows[i + 1..];
    TitleCountAppend(rows[..i] + [rows[i]], rows[i + 1..]);
    TitleCountAppend(rows[..i] + [row], rows[i + 1..]);
    TitleCountAppend(rows[..i], [rows[i]]);
    TitleCountAppend(rows[..i], [row]);
    assert TitleCount([row]) == |row.poetry| by {
      assert [row][..0] == [];
    }
    assert TitleCount([rows[i]]) == |rows[i].poetry| by {
      assert [rows[i]][..0] == [];
    }
  }

  /** `Add` grows the count by exactly one when it files a new title, and not at all otherwise. */
  lemma AddCount<K>(rows: seq<Row<K>>, k: K, title: Option<string>)
    ensures TitleCount(AddToIndex(rows, k, title)) ==
            TitleCount(rows) + (if IsBlank(title) || title.value in TitlesOf(rows, k) then 0 else 1)
  {
    if !IsBlank(title) {
      var t := title.value;
      match RowOf(rows, k)
      case None =>
        TitleCountAppend(rows, [Row(k, [t])]);
        assert [Row(k, [t])][..0] == [];
      case Some(i) =>
        TitleCountUpdate(rows, i, rows[i].(poetry := AddTitle(rows[i].poetry, t)));
    }
  }

  /**
   * `after` keeps every title `rows` files in place, files `title` under `k` when it is
   * not blank, and files nothing else.
   */
  ghost predicate FiledOnly<K>(rows: seq<Row<K>>, after: seq<Row<K>>, k: K, title: Option<string>) {
    (forall i, j :: 0 <= i < |rows| && 0 <= j < |rows[i].poetry| ==>
       i < |after| && j < |after[i].poetry| && after[i].poetry[j] == rows[i].poetry[j])
    && (!IsBlank(title) ==> title.value in TitlesOf(after, k))
    && (forall i, j :: 0 <= i < |after| && 0 <= j < |after[i].poetry| ==>
          (i < |rows| && j < |rows[i].poetry|) || (after[i].key == k && Some(after[i].poetry[j]) == title))
  }

  /** `Add` keeps every filed title in place, files its own title under `k`, and adds nothing else. */
  lemma AddKeepsEntries<K>(rows: seq<Row<K>>, k: K, title: Option<string>)
    ensures FiledOnly(rows, AddToIndex(rows, k, title), k, title)
  {
    if !IsBlank(title) {
      match RowOf(rows, k)
      case None =>
        AddNewRowKeeps(rows, k, title.value);
      case Some(i) =>
        AddToRowKeeps(rows, k, title.value, i);
    }
  }

  /** `Add` of a key without a row appends a row holding just the title. */
  lemma AddNewRowKeeps<K>(rows: seq<Row<K>>, k: K, t: string)
    requires !IsBlank(Some(t)) && RowOf(rows, k).None?
    ensures FiledOnly(rows, AddToIndex(rows, k, Some(t)), k, Some(t))
  {
    var after := AddToIndex(rows, k, Some(t));
    assert after == rows + [Row(k, [t])];
    RowOfAppend(rows, Row(k, [t]), k);
    assert forall i :: 0 <= i < |rows| ==> after[i] == rows[i];
  }

  /** `Add` of a key with a row at `i` adds the title to that row only. */
  lemma AddToRowKeeps<K>(rows: seq<Row<K>>, k: K, t: string, i: nat)
    requires !IsBlank(Some(t)) && RowOf(rows, k) == Some(i)
    ensures FiledOnly(rows, AddToIndex(rows, k, Some(t)), k, Some(t))
  {
    var after := AddToIndex(rows, k, Some(t));
    var titles := rows[i].poetry;
    var grown := AddTitle(titles, t);
    assert after == rows[i := rows[i].(poetry := grown)];
    assert |after| == |rows| && after[i].poetry == grown && after[i].key == k;
    assert |titles| <= |grown| && t in grown;
    forall a, b | 0 <= a < |rows| && 0 <= b < |rows[a].poetry|
      ensures a < |after| && b < |after[a].poetry| && after[a].poetry[b] == rows[a].poetry[b]
    {
      if a != i {
        assert after[a] == rows[a];
      }
    }
    RowOfUpdate(rows, i, after[i], k);
    assert TitlesOf(after, k) == grown;
    forall a, b | 0 <= a < |after| && 0 <= b < |after[a].poetry|
      ensures (a < |rows| && b < |rows[a].poetry|) || (after[a].key == k && Some(after[a].poetry[b]) == Some(t))
    {
      if a != i {
        assert after[a] == rows[a];
      } else if b >= |titles| {
        assert grown == titles + [t] && b == |titles|;
      }
    }
  }

  /** `Add` never takes a title away from a key. */
  lemma TitlesGrow<K>(rows: seq<Row<K>>, k: K, title: Option<string>, other: K)
    ensures forall t :: t in TitlesOf(rows, other) ==> t in TitlesOf(AddToIndex(rows, k, title), other)
  {
    if !IsBlank(title) {
      var after := AddToIndex(rows, k, title);
      match RowOf(rows, k)
      case None =>
        RowOfAppend(rows, Row(k, [title.value]), other);
      case Some(i) =>
        RowOfUpdate(rows, i, after[i], other);
    }
  }

  // ---- an index built record by record

  /** The index after `Add(keys[m], titles[m])` for every `m` in turn. */
  function AddAll<K(==)>(rows: seq<Row<K>>, keys: seq<K>, titles: seq<Option<string>>): seq<Row<K>>
    requires |keys| == |titles|
  {
    if keys == [] then rows
    else
      var n := |keys|;
      AddToIndex(AddAll(rows, keys[..n - 1], titles[..n - 1]), keys[n - 1], titles[n - 1])
  }

  /** One more `Add` at the end of a record-by-record build. */
  lemma AddAllSnoc<K>(rows: seq<Row<K>>, keys: seq<K>, titles: seq<Option<string>>, k: K, t: Option<string>)
    requires |keys| == |titles|
    ensures AddAll(rows, keys + [k], titles + [t]) == AddToIndex(AddAll(rows, keys, titles), k, t)
  {
    assert (keys + [k])[..|keys|] == keys && (titles + [t])[..|titles|] == titles;
  }

  /** Every non-blank title is filed under its key. */
  ghost predicate Filed<K>(rows: seq<Row<K>>, keys: seq<K>, titles: seq<Option<string>>)
    requires |keys| == |titles|
  {
    forall m :: 0 <= m < |keys| && !IsBlank(titles[m]) ==> titles[m].value in TitlesOf(rows, keys[m])
  }

  /** Every filed title is one of the titles, under that title's key. */
  ghost predicate Sourced<K>(rows: seq<Row<K>>, keys: seq<K>, titles: seq<Option<string>>)
    requires |keys| == |titles|
  {
    forall j, t :: 0 <= j < |rows| && 0 <= t < |rows[j].poetry| ==> SourcedAt(rows[j].key, rows[j].poetry[t], keys, titles)
  }

  /** Title `t` under key `k` is one of the titles, under that title's key. */
  ghost predicate SourcedAt<K>(k: K, t: string, keys: seq<K>, titles: seq<Option<string>>)
    requires |keys| == |titles|
  {
    exists m :: 0 <= m < |keys| && k == keys[m] && titles[m] == Some(t)
  }

  /** The entry `t` of row `j` of a sourced index comes from some title under the row's key. */
  lemma SourcedEntry<K>(rows: seq<Row<K>>, keys: seq<K>, titles: seq<Option<string>>, j: nat, t: nat) returns (m: nat)
    requires |keys| == |titles| && Sourced(rows, keys, titles)
    requires j < |rows| && t < |rows[j].poetry|
    ensures m < |keys| && rows[j].key == keys[m] && titles[m] == Some(rows[j].poetry[t])
  {
    assert SourcedAt(rows[j].key, rows[j].poetry[t], keys, titles);
    m :| 0 <= m < |keys| && rows[j].key == keys[m] && titles[m] == Some(rows[j].poetry[t]);
  }

  /** One more `Add` keeps every earlier title filed and files its own. */
  lemma AddFiledStep<K>(rows: seq<Row<K>>, keys: seq<K>, titles: seq<Option<string>>, k: K, title: Option<string>)
    requires |keys| == |titles| && Filed(rows, keys, titles)
    ensures Filed(AddToIndex(rows, k, title), keys + [k], titles + [title])
  {
    var after := AddToIndex(rows, k, title);
    var keys', titles' := keys + [k], titles + [title];
    AddKeepsEntries(rows, k, title);
    forall m | 0 <= m < |keys'| && !IsBlank(titles'[m])
      ensures titles'[m].value in TitlesOf(after, keys'[m])
    {
      if m < |keys| {
        assert keys'[m] == keys[m] && titles'[m] == titles[m];
        TitlesGrow(rows, k, title, keys[m]);
      }
    }
  }

  /** One more `Add` files nothing but the titles so far and its own. */
  lemma AddSourcedStep<K>(rows: seq<Row<K>>, keys: seq<K>, titles: seq<Option<string>>, k: K, title: Option<string>)
    requires |keys| == |titles| && Sourced(rows, keys, titles)
    ensures Sourced(AddToIndex(rows, k, title), keys + [k], titles + [title])
  {
    var after := AddToIndex(rows, k, title);
    var keys', titles' := keys + [k], titles + [title];
    AddKeepsEntries(rows, k, title);
    AddKeys(rows, k, title);
    forall j, t | 0 <= j < |after| && 0 <= t < |after[j].poetry|
      ensures SourcedAt(after[j].key, after[j].poetry[t], keys', titles')
    {
      if j < |rows| && t < |rows[j].poetry| {
        var m := SourcedEntry(rows, keys, titles, j, t);
        assert after[j].key == keys'[m] && titles'[m] == Some(after[j].poetry[t]);
      } else {
        assert after[j].key == keys'[|keys|] && titles'[|keys|] == Some(after[j].poetry[t]);
      }
    }
  }

  /** An index built by `Add` from nothing is valid, files every title and files nothing else. */
  lemma {:induction false} AddAllFacts<K>(keys: seq<K>, titles: seq<Option<string>>)
    requires |keys| == |titles|
    ensures IndexValid(AddAll([], keys, titles))
    ensures Filed(AddAll([], keys, titles), keys, titles)
    ensures Sourced(AddAll([], keys, titles), keys, titles)
  {
    if keys != [] {
      var n := |keys|;
      var ks, ts := keys[..n - 1], titles[..n - 1];
      var k, title := keys[n - 1], titles[n - 1];
      var before := AddAll([], ks, ts);
      assert AddAll([], keys, titles) == AddToIndex(before, k, title);
      assert keys == ks + [k] && titles == ts + [title];
      AddAllFacts(ks, ts);
      AddPreservesValid(before, k, title);
      AddFiledStep(before, ks, ts, k, title);
      AddSourcedStep(before, ks, ts, k, title);
    }
  }

  // ---- the index seen through author names

  /** An index row as the names of its author objects show it. */
  type NamedRow = Row<Option<string>>

  /** The authors an index refers to. */
  function AuthorsOf(rows: seq<AuthorPoetry>): set<AuthorInfo> {
    set i | 0 <= i < |rows| && rows[i].key != null :: rows[i].key
  }

  /** The rows with every author replaced by its current name. */
  function Named(rows: seq<AuthorPoetry>): (r: seq<NamedRow>)
    reads AuthorsOf(rows)
    ensures |r| == |rows|
    ensures forall i :: 0 <= i < |rows| ==> r[i] == Row(NameOf(rows[i].key), rows[i].poetry)
  {
    seq(|rows|, i reads AuthorsOf(rows) requires 0 <= i < |rows| => Row(NameOf(rows[i].key), rows[i].poetry))
  }

  /** Naming the authors does not change the number of titles. */
  lemma {:induction false} TitleCountNamed(rows: seq<AuthorPoetry>)
    ensures TitleCount(Named(rows)) == TitleCount(rows)
  {
    if rows != [] {
      var n := |rows|;
      assert Named(rows)[..n - 1] == Named(rows[..n - 1]);
      TitleCountNamed(rows[..n - 1]);
    }
  }

  /** Names tell the row authors and `a` apart. */
  ghost predicate NamesDistinguish(rows: seq<AuthorPoetry>, a: AuthorInfo?)
    reads AuthorsOf(rows), a
  {
    forall i :: 0 <= i < |rows| ==> (rows[i].key == a <==> NameOf(rows[i].key) == NameOf(a))
  }

  /** When names tell authors apart, adding by author and adding by name agree. */
  lemma NamedAdd(rows: seq<AuthorPoetry>, a: AuthorInfo?, title: Option<string>)
    requires NamesDistinguish(rows, a)
    ensures AuthorsOf(AddToIndex(rows, a, title)) <= AuthorsOf(rows) + (if a == null then {} else {a})
    ensures Named(AddToIndex(rows, a, title)) == AddToIndex(Named(rows), NameOf(a), title)
  {
    if !IsBlank(title) {
      var n := Named(rows);
      assert forall j :: 0 <= j < |rows| ==> (rows[j].key == a <==> n[j].key == NameOf(a));
      var r1 := RowOf(rows, a);
      var r2 := RowOf(n, NameOf(a));
      assert r1.Some? <==> r2.Some?;
      if r1.Some? {
        assert !(r1.value < r2.value) && !(r2.value < r1.value);
      }
      var after := AddToIndex(rows, a, title);
      assert forall j :: 0 <= j < |after| ==> after[j].key == a || after[j].key in (set i | 0 <= i < |rows| :: rows[i].key);
    }
  }

  // ---- the manifest rows: `[authorName, title, title, ...]`

  /** Every title added under one key, in order. */
  function AddEach<K(==)>(rows: seq<Row<K>>, k: K, titles: seq<Option<string>>): seq<Row<K>> {
    if titles == [] then rows
    else AddToIndex(AddEach(rows, k, titles[..|titles| - 1]), k, titles[|titles| - 1])
  }

  /** The key a manifest row names: `null` for a missing, non-string or empty name. */
  function RowKey(items: seq<Json>): (r: Option<string>)
    ensures r.Some? ==> r.value != ""
  {
    var name := StringAt(items, 0);
    if IsNullOrEmpty(name) then None else name
  }

  /** Elements `1..` of a manifest row as the titles they add (null where not a string). */
  function RowTitles(items: seq<Json>): (r: seq<Option<string>>)
    requires |items| >= 1
    ensures |r| == |items| - 1 && forall i :: 0 <= i < |r| ==> r[i] == StringAt(items, i + 1)
  {
    seq(|items| - 1, i requires 0 <= i < |items| - 1 => StringAt(items, i + 1))
  }

  /** The named rows `Create` builds from the `poetry` array: rows without elements are skipped. */
  function DecodeRows(items: seq<Json>): seq<NamedRow> {
    if items == [] then [] else DecodeItem(DecodeRows(items[..|items| - 1]), items[|items| - 1])
  }

  /** One manifest row added to the rows decoded so far. */
  function DecodeItem(rows: seq<NamedRow>, item: Json): seq<NamedRow> {
    if item.JArr? && |item.items| >= 1 then AddEach(rows, RowKey(item.items), RowTitles(item.items)) else rows
  }

  /** The author name a manifest item names: `null` unless it is a non-empty row with a non-empty name. */
  function ItemKey(item: Json): Option<string> {
    if item.JArr? && |item.items| >= 1 then RowKey(item.items) else None
  }

  /** A manifest item that is a row with at least one non-blank title. */
  predicate ItemTitled(item: Json) {
    item.JArr? && exists t :: 1 <= t < |item.items| && !IsBlank(StringAt(item.items, t))
  }

  /** `Add` keeps a row for every key that had one. */
  lemma AddKeepsRow<K>(rows: seq<Row<K>>, k: K, title: Option<string>, other: K)
    requires RowOf(rows, other).Some?
    ensures RowOf(AddToIndex(rows, k, title), other).Some?
  {
    AddKeys(rows, k, title);
    assert AddToIndex(rows, k, title)[RowOf(rows, other).value].key == other;
  }

  /** `Add` of a non-blank title leaves a row for its key. */
  lemma AddMakesRow<K>(rows: seq<Row<K>>, k: K, title: Option<string>)
    requires !IsBlank(title)
    ensures RowOf(AddToIndex(rows, k, title), k).Some?
  {
    AddKeys(rows, k, title);
    if RowOf(rows, k).Some? {
      AddKeepsRow(rows, k, title, k);
    } else {
      assert AddToIndex(rows, k, title)[|rows|].key == k;
    }
  }

  /** Adding titles under one key keeps a row for every key that had one. */
  lemma {:induction false} AddEachKeepsRow<K>(rows: seq<Row<K>>, k: K, titles: seq<Option<string>>, other: K)
    requires RowOf(rows, other).Some?
    ensures RowOf(AddEach(rows, k, titles), other).Some?
  {
    if titles != [] {
      var n := |titles|;
      AddEachKeepsRow(rows, k, titles[..n - 1], other);
      AddKeepsRow(AddEach(rows, k, titles[..n - 1]), k, titles[n - 1], other);
    }
  }

  /** Adding titles under one key, one of them non-blank, leaves a row for that key. */
  lemma {:induction false} AddEachMakesRow<K>(rows: seq<Row<K>>, k: K, titles: seq<Option<string>>, t: nat)
    requires t < |titles| && !IsBlank(titles[t])
    ensures RowOf(AddEach(rows, k, titles), k).Some?
  {
    var n := |titles|;
    var before := AddEach(rows, k, titles[..n - 1]);
    if t == n - 1 {
      AddMakesRow(before, k, titles[n - 1]);
    } else {
      AddEachMakesRow(rows, k, titles[..n - 1], t);
      AddKeepsRow(before, k, titles[n - 1], k);
    }
  }

  /** Decoding the manifest rows keeps a row for every key the rows so far filed. */
  lemma {:induction false} DecodeItemKeepsRow(rows: seq<NamedRow>, item: Json, k: Option<string>)
    requires RowOf(rows, k).Some?
    ensures RowOf(DecodeItem(rows, item), k).Some?
  {
    if item.JArr? && |item.items| >= 1 {
      AddEachKeepsRow(rows, RowKey(item.items), RowTitles(item.items), k);
    }
  }

  /** Every manifest item with a non-blank title leaves a row for the name it gives. */
  lemma {:induction false} DecodeRowsRow(items: seq<Json>, m: nat)
    requires m < |items| && ItemTitled(items[m])
    ensures RowOf(DecodeRows(items), ItemKey(items[m])).Some?
  {
    var n := |items|;
    var before := DecodeRows(items[..n - 1]);
    assert DecodeRows(items) == DecodeItem(before, items[n - 1]);
    if m == n - 1 {
      var a := items[m].items;
      var t :| 1 <= t < |a| && !IsBlank(StringAt(a, t));
      assert RowTitles(a)[t - 1] == StringAt(a, t);
      AddEachMakesRow(before, RowKey(a), RowTitles(a), t - 1);
    } else {
      assert items[..n - 1][m] == items[m];
      DecodeRowsRow(items[..n - 1], m);
      DecodeItemKeepsRow(before, items[n - 1], ItemKey(items[m]));
    }
  }

  /** What `Create` reads from a manifest object: the file name and the named rows, or null. */
  function DecodeManifest(json: Option<map<string, Json>>): Option<(string, seq<NamedRow>)> {
    if json.None? then None
    else
      var file := StringField(json.value, "file");
      if IsBlank(file) then None
      else
        var arr := ArrayField(json.value, "poetry");
        Some((file.value, if arr.None? then [] else DecodeRows(arr.value)))
  }

  /** One row as the manifest writes it: the author name, then the titles. */
  function EncodeRow(row: NamedRow): Json {
    JArr([FromString(row.key)] + Map((t: string) => JStr(t), row.poetry))
  }

  /** The `(JsonObject)` form of a file's index. */
  function EncodeManifest(file: Option<string>, rows: seq<NamedRow>): map<string, Json> {
    map["file" := FromString(file), "poetry" := JArr(Map(EncodeRow, rows))]
  }

  /** Rows the manifest can carry: valid, and no author named by the empty string. */
  predicate ManifestRowsValid(rows: seq<NamedRow>) {
    IndexValid(rows) && forall i :: 0 <= i < |rows| ==> rows[i].key != Some("")
  }

  /** Decoding the manifest of an index gives back its file name and rows. */
  lemma ManifestRoundTrip(file: string, rows: seq<NamedRow>)
    requires !IsBlank(Some(file)) && ManifestRowsValid(rows)
    ensures DecodeManifest(Some(EncodeManifest(Some(file), rows))) == Some((file, rows))
  {
    DecodeEncodedRows(rows);
  }

  lemma {:induction false} DecodeEncodedRows(rows: seq<NamedRow>)
    requires ManifestRowsValid(rows)
    ensures DecodeRows(Map(EncodeRow, rows)) == rows
  {
    if rows != [] {
      var n := |rows|;
      var init, last := rows[..n - 1], rows[n - 1];
      var enc, encInit := Map(EncodeRow, rows), Map(EncodeRow, init);
      forall i | 0 <= i < n - 1 ensures enc[..n - 1][i] == encInit[i] {
        assert init[i] == rows[i];
      }
      assert enc[..n - 1] == encInit;
      assert DecodeRows(enc) == DecodeItem(DecodeRows(encInit), EncodeRow(last));
      InitRowsValid(rows, init);
      DecodeEncodedRows(init);
      EncodedRow(last);
      assert DecodeItem(init, EncodeRow(last)) == AddEach(init, last.key, Lift(last.poetry));
      AddEachFresh(init, last.key, last.poetry);
      InitLast(rows);
    }
  }

  /** The rows before the last of manifest-valid rows are manifest-valid, and none has the last row's key. */
  lemma InitRowsValid(rows: seq<NamedRow>, init: seq<NamedRow>)
    requires rows != [] && ManifestRowsValid(rows) && init == rows[..|rows| - 1]
    ensures ManifestRowsValid(init)
    ensures forall i :: 0 <= i < |init| ==> init[i].key != rows[|rows| - 1].key
  {
    assert forall i :: 0 <= i < |init| ==> init[i] == rows[i];
  }

  /** An encoded row decodes to its own key and titles. */
  lemma EncodedRow(row: NamedRow)
    requires row.key != Some("")
    ensures EncodeRow(row).JArr? && |EncodeRow(row).items| >= 1
    ensures RowKey(EncodeRow(row).items) == row.key
    ensures RowTitles(EncodeRow(row).items) == Lift(row.poetry)
  {
    var items := EncodeRow(row).items;
    assert items[0] == FromString(row.key);
  }

  /** Adding distinct titles under a fresh key appends one row holding exactly those titles. */
  lemma {:induction false} AddEachFresh<K>(rows: seq<Row<K>>, k: K, ts: seq<string>)
    requires TitlesValid(ts)
    requires forall i :: 0 <= i < |rows| ==> rows[i].key != k
    ensures AddEach(rows, k, Lift(ts)) == rows + [Row(k, ts)]
  {
    var n := |ts|;
    var init, t := ts[..n - 1], ts[n - 1];
    var lifted := Lift(ts);
    forall i | 0 <= i < n - 1 ensures lifted[..n - 1][i] == Lift(init)[i] {
      assert init[i] == ts[i];
    }
    assert lifted[..n - 1] == Lift(init);
    assert AddEach(rows, k, lifted) == AddToIndex(AddEach(rows, k, Lift(init)), k, Some(t));
    if n == 1 {
      assert ts == [t];
    } else {
      TitlesValidInit(ts);
      AddEachFresh(rows, k, init);
      var grown := rows + [Row(k, init)];
      RowOfAppend(rows, Row(k, init), k);
      assert RowOf(grown, k) == Some(|rows|);
      assert t !in init;
      InitLast(ts);
      UpdateLast(rows, Row(k, init), Row(k, ts));
    }
  }

  /** A valid title list without its last title is valid and lacks that title. */
  lemma TitlesValidInit(ts: seq<string>)
    requires |ts| > 1 && TitlesValid(ts)
    ensures TitlesValid(ts[..|ts| - 1]) && ts[|ts| - 1] !in ts[..|ts| - 1]
  {
    var init := ts[..|ts| - 1];
    assert forall i :: 0 <= i < |init| ==> init[i] == ts[i];
  }

  // ---- the index queries of `Any(string)` and `Any(IEnumerable<string>)`, per row

  /** A row answers the query when its author's name equals it or one of its titles contains it. */
  predicate RowMatchesQuery(row: NamedRow, q: string) {
    EqualsIgnoreCase(q, row.key) || exists j :: 0 <= j < |row.poetry| && Contains(Some(row.poetry[j]), q)
  }

  /** The test `Any(IEnumerable<string>)` applies to each title of a row. */
  function TitleHit(qs: seq<Option<string>>): string -> Outcome<bool> {
    t => ContainsAny(Some(t), Some(qs))
  }

  /**
   * A row's answer to a query list: true when its author's name is in the list, else the
   * titles are tried in order, and a null query reached before a match throws.
   */
  function RowAnswer(row: NamedRow, qs: seq<Option<string>>): (r: Outcome<bool>)
    ensures ContainsName(qs, row.key) ==> r == Ok(true)
    ensures r.Thrown? ==> r.error == ArgumentNullException && !NullFree(qs)
    ensures NullFree(qs) ==> r == Ok(ContainsName(qs, row.key) ||
              exists j, i :: 0 <= j < |row.poetry| && 0 <= i < |qs| && Contains(Some(row.poetry[j]), qs[i].value))
  {
    if ContainsName(qs, row.key) then Ok(true)
    else
      var r := AnyOutcome(row.poetry, TitleHit(qs));
      assert NullFree(qs) ==> r == Ok(exists j, i :: 0 <= j < |row.poetry| && 0 <= i < |qs| && Contains(Some(row.poetry[j]), qs[i].value)) by {
        if NullFree(qs) {
          forall j | 0 <= j < |row.poetry|
            ensures TitleHit(qs)(row.poetry[j]) == Ok(exists i :: 0 <= i < |qs| && Contains(Some(row.poetry[j]), qs[i].value))
          {
            NullFreeContainsAny(Some(row.poetry[j]), qs);
          }
          AnyOutcomeTotal(row.poetry, TitleHit(qs));
        }
      }
      r
  }

  /** A title that answers the query list keeps its row from answering false. */
  lemma TitleDecides(row: NamedRow, qs: seq<Option<string>>, t: string)
    requires t in row.poetry && ContainsAny(Some(t), Some(qs)) == Ok(true)
    ensures RowAnswer(row, qs) != Ok(false)
  {
    var j :| 0 <= j < |row.poetry| && row.poetry[j] == t;
    assert TitleHit(qs)(row.poetry[j]) == Ok(true);
    AnyOutcomeDecided(row.poetry, TitleHit(qs), j);
  }

  /** A row answers a query list. */
  predicate RowMatchesQueries(row: NamedRow, qs: seq<Option<string>>) {
    RowAnswer(row, qs) == Ok(true)
  }

  /** Some row's key is one of `keys`. */
  function AnyKeyIn<K(==)>(rows: seq<Row<K>>, keys: seq<K>): (r: bool)
    ensures r <==> exists i :: 0 <= i < |rows| && rows[i].key in keys
  {
    if rows == [] then false
    else if rows[0].key in keys then true
    else
      var r := AnyKeyIn(rows[1..], keys);
      assert forall i :: 1 <= i < |rows| ==> rows[i] == rows[1..][i - 1];
      r
  }

  /** Some row answers the query. */
  function AnyRowMatchesQuery(rows: seq<NamedRow>, q: string): (r: bool)
    ensures r <==> exists i :: 0 <= i < |rows| && RowMatchesQuery(rows[i], q)
  {
    if rows == [] then false
    else if RowMatchesQuery(rows[0], q) then true
    else
      var r := AnyRowMatchesQuery(rows[1..], q);
      assert forall i :: 1 <= i < |rows| ==> rows[i] == rows[1..][i - 1];
      r
  }

  /** The per-row test of `Any(IEnumerable<string>)`. */
  function RowHit(qs: seq<Option<string>>): NamedRow -> Outcome<bool> {
    row => RowAnswer(row, qs)
  }

  /** A row that does not answer false keeps the rows from answering false. */
  lemma RowDecides(rows: seq<NamedRow>, qs: seq<Option<string>>, j: int)
    requires 0 <= j < |rows| && RowAnswer(rows[j], qs) != Ok(false)
    ensures AnyRowMatchesQueries(rows, qs) != Ok(false)
  {
    assert RowHit(qs)(rows[j]) == RowAnswer(rows[j], qs);
    AnyOutcomeDecided(rows, RowHit(qs), j);
  }

  /**
   * `poems.Any(...)` for a query list: the rows are tried in order and the first that
   * answers true or throws decides; without null queries it never throws.
   */
  function AnyRowMatchesQueries(rows: seq<NamedRow>, qs: seq<Option<string>>): (r: Outcome<bool>)
    ensures r.Thrown? ==> r.error == ArgumentNullException && !NullFree(qs)
    ensures r == Ok(true) <==> exists i :: 0 <= i < |rows| && RowMatchesQueries(rows[i], qs) && Undecided(rows, RowHit(qs), i)
    ensures NullFree(qs) ==> r == Ok(exists i :: 0 <= i < |rows| && RowMatchesQueries(rows[i], qs))
  {
    var r := AnyOutcome(rows, RowHit(qs));
    assert NullFree(qs) ==> r == Ok(exists i :: 0 <= i < |rows| && RowMatchesQueries(rows[i], qs)) by {
      if NullFree(qs) {
        assert forall i :: 0 <= i < |rows| ==> RowHit(qs)(rows[i]).Ok?;
        AnyOutcomeTotal(rows, RowHit(qs));
      }
    }
    r
  }

}
