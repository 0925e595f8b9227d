/**
 * Files and what the JSON decoders make of them, plus the pure specification of the
 * three-tier record parser (Chinese/PoetryPartition.cs:440-496).
 */
module Documents {
  import opened Wrappers
  import opened Text
  import opened Json
  import opened Model

  /** `{ "title": ..., "content": ... }` as the typed deserializer reads it. */
  datatype Titled<T> = Titled(title: Option<string>, content: Option<T>)

  /**
   * One file as each decoder the core uses would see it. Every view is independent:
   * the decoders are library code, so a file is described by their verdicts.
   */
  datatype Document = Document(
    asArray: Decoded<seq<Option<Poem>>>,              // `List<PoetryModel>`
    asObject: Decoded<Poem>,                          // `PoetryModel`
    lines: seq<string>,                               // `ReadLine()` results, in order
    parseLine: string -> Decoded<Poem>,               // `PoetryModel` from one line
    asTree: Decoded<seq<Json>>,                       // a generic JSON array
    asGroups: Decoded<Titled<seq<Option<seq<Poem>>>>>, // titled groups of records
    asTitled: Decoded<Titled<seq<Option<Poem>>>>)     // titled records

  /** A directory: the file each relative name resolves to, if it exists. */
  datatype Folder = Folder(entries: string -> Option<Document>)

  /** A directory separator: a slash, or a backslash as on Windows. */
  predicate IsSeparator(c: char) {
    c == '/' || c == '\\'
  }

  /** `FileInfo.Name`: the part of a path after its last directory separator. */
  function Leaf(path: string): string {
    if path == [] || IsSeparator(path[|path| - 1]) then [] else Leaf(path[..|path| - 1]) + [path[|path| - 1]]
  }

  /** That part ends the path, holds no separator, and follows a separator unless it is the whole path. */
  lemma {:induction false} LeafSegment(path: string)
    ensures |Leaf(path)| <= |path| && Leaf(path) == path[|path| - |Leaf(path)|..]
    ensures forall k :: 0 <= k < |Leaf(path)| ==> !IsSeparator(Leaf(path)[k])
    ensures |Leaf(path)| < |path| ==> IsSeparator(path[|path| - |Leaf(path)| - 1])
  {
    if path != [] && !IsSeparator(path[|path| - 1]) {
      var n := |path| - 1;
      var init := path[..n];
      LeafSegment(init);
      var front := Leaf(init);
      var r := front + [path[n]];
      assert Leaf(path) == r;
      var m := n - |front|;
      assert front == init[m..];
      assert forall k :: 0 <= k < |front| ==> front[k] == path[m + k];
      assert r == path[m..];
      assert |front| < n ==> path[m - 1] == init[m - 1];
    }
  }

  /** A name without separators is its own last segment. */
  lemma {:induction false} LeafOfPlainName(path: string)
    requires forall k :: 0 <= k < |path| ==> !IsSeparator(path[k])
    ensures Leaf(path) == path
  {
    if path != [] {
      var n := |path| - 1;
      assert forall k :: 0 <= k < n ==> path[..n][k] == path[k];
      LeafOfPlainName(path[..n]);
      assert path[..n] + [path[n]] == path;
    }
  }

  /** A file handle: its identity is the object, its content is fixed. */
  class FileHandle {
    const name: string
    const content: Option<Document>
    const directory: Folder

    constructor (name: string, content: Option<Document>, directory: Folder)
      ensures this.name == name && this.content == content && this.directory == directory
    {
      this.name := name;
      this.content := content;
      this.directory := directory;
    }

    predicate Exists() {
      content.Some?
    }
  }

  /** `prefix` in front of a successful result; a failure is passed on. */
  function Then(prefix: seq<Poem>, o: Outcome<seq<Poem>>): (r: Outcome<seq<Poem>>)
    ensures r.Ok? <==> o.Ok?
    ensures r.Ok? ==> r.value == prefix + o.value
    ensures r.Thrown? ==> r == o
  {
    if o.Ok? then Ok(prefix + o.value) else o
  }

  /** The minimum length, in UTF-16 code units, of a line the line-per-record tier tries to decode. */
  const MinLineLength := 10

  /**
   * The line-per-record tier over the remaining `lines`. `trim` tells whether the next
   * line is trimmed before use: true at the start and after every decoded line, false
   * after a skipped short line.
   */
  function LineMode(lines: seq<string>, parse: string -> Decoded<Poem>, trim: bool): (r: Outcome<seq<Poem>>)
    ensures r.Thrown? ==> r.error == JsonException
    ensures r.Thrown? ==> exists i :: 0 <= i < |lines| && Utf16Length(lines[i]) >= MinLineLength
  {
    if lines == [] then Ok([])
    else
      var l := if trim then Trim(lines[0]) else lines[0];
      if Utf16Length(l) < MinLineLength then LineMode(lines[1..], parse, false)
      else Utf16Trim(lines[0]); match parse(l)
        case Malformed => Thrown(JsonException)
        case Null => LineMode(lines[1..], parse, true)
        case Value(m) => Then([Reorganized(m)], LineMode(lines[1..], parse, true))
  }

  /** All records of a decoded array; a null element has no `Reorganize` to call. */
  function ArrayRecords(items: seq<Option<Poem>>): (r: Outcome<seq<Poem>>)
    ensures r.Thrown? <==> exists i :: 0 <= i < |items| && items[i].None?
    ensures r.Thrown? ==> r.error == NullReferenceException
    ensures r.Ok? ==> |r.value| == |items| && forall i :: 0 <= i < |items| ==> Some(r.value[i]) == items[i]
  {
    if items == [] then Ok([])
    else if items[0].None? then Thrown(NullReferenceException)
    else
      var rest := ArrayRecords(items[1..]);
      assert forall i :: 1 <= i < |items| ==> items[i] == items[1..][i - 1];
      Then([items[0].value], rest)
  }

  /** Every record, reorganized. */
  function ReorganizeAll(s: seq<Poem>): (r: seq<Poem>)
    ensures |r| == |s| && forall i :: 0 <= i < |s| ==> r[i] == Reorganized(s[i])
  {
    seq(|s|, i requires 0 <= i < |s| => Reorganized(s[i]))
  }

  /** The three tiers: a whole array, then a single object, then one object per line. */
  function ParseDocument(d: Document): (r: Outcome<seq<Poem>>)
    ensures r.Thrown? && r.error == NullReferenceException ==>
      d.asArray.Value? && exists i :: 0 <= i < |d.asArray.value| && d.asArray.value[i].None?
    ensures r.Thrown? && r.error != NullReferenceException ==>
      r.error == JsonException && d.asArray.Malformed? && d.asObject.Malformed?
    ensures r.Ok? && d.asArray.Value? ==> |r.value| == |d.asArray.value|
    ensures r.Ok? && d.asArray.Value? ==>
      forall i :: 0 <= i < |r.value| ==> d.asArray.value[i].Some? && r.value[i] == Reorganized(d.asArray.value[i].value)
  {
    match d.asArray
    case Value(items) =>
      var o := ArrayRecords(items);
      if o.Ok? then Ok(ReorganizeAll(o.value)) else o
    case Null => Ok([])
    case Malformed =>
      match d.asObject
      case Value(p) => Ok([Reorganized(p)])
      case Null => Ok([])
      case Malformed => LineMode(d.lines, d.parseLine, true)
  }

  /** The parse of a file handle: nothing for a null or missing file. */
  function ParseFile(file: FileHandle?): (r: Outcome<seq<Poem>>)
    ensures r.Thrown? ==> file != null && file.Exists()
    ensures r.Thrown? ==> r.error == JsonException || r.error == NullReferenceException
    ensures r.Ok? ==> AllReorganized(r.value)
  {
    if file != null && file.Exists() then ParsedAreReorganized(file.content.value); ParseDocument(file.content.value)
    else Ok([])
  }

  /** Once the array view decodes, the other tiers are never consulted. */
  lemma ArrayWins(d: Document, o: Decoded<Poem>, lines: seq<string>, parse: string -> Decoded<Poem>)
    requires !d.asArray.Malformed?
    ensures ParseDocument(d.(asObject := o, lines := lines, parseLine := parse)) == ParseDocument(d)
  {
  }

  /** The single-object tier yields at most one record and never reads the lines. */
  lemma ObjectTier(d: Document, lines: seq<string>, parse: string -> Decoded<Poem>)
    requires d.asArray.Malformed? && !d.asObject.Malformed?
    ensures ParseDocument(d).Ok? && |ParseDocument(d).value| <= 1
    ensures ParseDocument(d.(lines := lines, parseLine := parse)) == ParseDocument(d)
  {
  }

  /** Line mode yields at most one record per line. */
  lemma {:induction false} LineModeBound(lines: seq<string>, parse: string -> Decoded<Poem>, trim: bool)
    ensures LineMode(lines, parse, trim).Ok? ==> |LineMode(lines, parse, trim).value| <= |lines|
  {
    if lines != [] {
      LineModeBound(lines[1..], parse, false);
      LineModeBound(lines[1..], parse, true);
    }
  }

  /** Lines shorter than the minimum are skipped whatever their content. */
  lemma {:induction false} ShortLinesYieldNothing(lines: seq<string>, parse: string -> Decoded<Poem>, trim: bool)
    requires forall i :: 0 <= i < |lines| ==> Utf16Length(lines[i]) < MinLineLength
    ensures LineMode(lines, parse, trim) == Ok([])
  {
    if lines != [] {
      Utf16Trim(lines[0]);
      ShortLinesYieldNothing(lines[1..], parse, false);
    }
  }

  /** A line of nine characters, one of them beyond U+FFFF, is ten code units long and so is decoded. */
  lemma SupplementaryLineIsLong()
    ensures var l := "{\"t\":\"\U{20000}\"}"; |l| < MinLineLength && Utf16Length(l) == MinLineLength
  {
  }

  /** A line that follows a skipped short line reaches the decoder untrimmed. */
  lemma ShortLineDisablesTrim(short: string, next: string, parse: string -> Decoded<Poem>)
    requires Utf16Length(short) < MinLineLength
    ensures LineMode([short, next], parse, true) == LineMode([next], parse, false)
  {
    Utf16Trim(short);
    assert [short, next][1..] == [next];
  }

  /** Every record of `s` is a fixpoint of `Reorganize`. */
  ghost predicate AllReorganized(s: seq<Poem>) {
    forall i :: 0 <= i < |s| ==> Reorganized(s[i]) == s[i]
  }

  /** Every record line mode yields is reorganized already. */
  lemma {:induction false} LineModeReorganized(lines: seq<string>, parse: string -> Decoded<Poem>, trim: bool)
    ensures LineMode(lines, parse, trim).Ok? ==> AllReorganized(LineMode(lines, parse, trim).value)
    decreases |lines|, 1
  {
    if lines != [] {
      var l := if trim then Trim(lines[0]) else lines[0];
      if Utf16Length(l) < MinLineLength || !parse(l).Value? {
        LineModePassReorganized(lines, parse, trim);
      } else {
        LineModeValueReorganized(lines, parse, trim);
      }
    }
  }

  /** A line that yields no record leaves the rest's records. */
  lemma {:induction false} LineModePassReorganized(lines: seq<string>, parse: string -> Decoded<Poem>, trim: bool)
    requires lines != []
    requires var l := if trim then Trim(lines[0]) else lines[0]; Utf16Length(l) < MinLineLength || !parse(l).Value?
    ensures LineMode(lines, parse, trim).Ok? ==> AllReorganized(LineMode(lines, parse, trim).value)
    decreases |lines|, 0
  {
    var l := if trim then Trim(lines[0]) else lines[0];
    var o := LineMode(lines, parse, trim);
    if Utf16Length(l) < MinLineLength {
      var rest := LineMode(lines[1..], parse, false);
      assert o == rest;
      LineModeReorganized(lines[1..], parse, false);
    } else if parse(l).Null? {
      var rest := LineMode(lines[1..], parse, true);
      assert o == rest;
      LineModeReorganized(lines[1..], parse, true);
    } else {
      assert o.Thrown?;
    }
  }

  /** A line that decodes puts its reorganized record in front of the rest's. */
  lemma {:induction false} LineModeValueReorganized(lines: seq<string>, parse: string -> Decoded<Poem>, trim: bool)
    requires lines != []
    requires var l := if trim then Trim(lines[0]) else lines[0]; Utf16Length(l) >= MinLineLength && parse(l).Value?
    ensures LineMode(lines, parse, trim).Ok? ==> AllReorganized(LineMode(lines, parse, trim).value)
    decreases |lines|, 0
  {
    var l := if trim then Trim(lines[0]) else lines[0];
    var rest := LineMode(lines[1..], parse, true);
    LineModeReorganized(lines[1..], parse, true);
    assert LineMode(lines, parse, trim) == Then([Reorganized(parse(l).value)], rest);
    if rest.Ok? {
      ConsReorganized(parse(l).value, rest.value);
    }
  }

  /** A reorganized record in front of reorganized records. */
  lemma ConsReorganized(p: Poem, rest: seq<Poem>)
    requires AllReorganized(rest)
    ensures AllReorganized([Reorganized(p)] + rest)
  {
    ReorganizeIdempotent(p);
    var all := [Reorganized(p)] + rest;
    forall i | 0 <= i < |all|
      ensures Reorganized(all[i]) == all[i]
    {
      if i > 0 {
        assert all[i] == rest[i - 1];
      }
    }
  }

  /** Every record the parser yields is a fixpoint of `Reorganize`. */
  lemma ParsedAreReorganized(d: Document)
    ensures ParseDocument(d).Ok? ==> AllReorganized(ParseDocument(d).value)
  {
    match d.asArray
    case Value(items) =>
      var o := ArrayRecords(items);
      if o.Ok? {
        forall i | 0 <= i < |o.value| ensures Reorganized(ReorganizeAll(o.value)[i]) == ReorganizeAll(o.value)[i] {
          ReorganizeIdempotent(o.value[i]);
        }
      }
    case Null =>
    case Malformed =>
      match d.asObject
      case Value(p) => ReorganizeIdempotent(p);
      case Null =>
      case Malformed => LineModeReorganized(d.lines, d.parseLine, true);
  }
}
