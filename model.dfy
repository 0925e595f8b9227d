/**
 * One poem record (Chinese/PoetryModel.cs): the derived full title, the repair of
 * legacy field encodings, and the textual rendering.
 */
module Model {
  import opened Wrappers
  import opened Text
  import opened Json
  import opened Seqs

  /**
   * A record as the deserializer produces it. Every reference-typed property may be null;
   * `ext` holds the properties the schema does not name, verbatim.
   */
  datatype Poem = Poem(
    id: Option<string>,
    chapter: Option<string>,
    section: Option<string>,
    title: Option<string>,
    author: Option<string>,
    dynasty: Option<string>,
    paragraphs: Option<seq<string>>,
    strains: Option<seq<string>>,
    ext: Option<map<string, Json>>)

  /** `(Section ?? Chapter)?.Trim()` */
  function Prefix(p: Poem): Option<string> {
    TrimOpt(if p.section.Some? then p.section else p.chapter)
  }

  /** The display title: the trimmed prefix and the trimmed title joined by a middle dot. */
  function FullTitle(p: Poem): (r: Option<string>)
    ensures r.Some? ==> IsTrimmed(r.value)
    ensures r.None? <==> p.title.None? && IsNullOrEmpty(Prefix(p))
  {
    var title := TrimOpt(p.title);
    var prefix := Prefix(p);
    if IsNullOrEmpty(prefix) then title
    else if IsNullOrEmpty(title) then prefix
    else
      DottedTrimmed(prefix.value, title.value);
      Some(Dotted(prefix.value, title.value))
  }

  /** Without a usable prefix the full title is the trimmed title. */
  lemma FullTitleWithoutPrefix(p: Poem)
    requires IsNullOrEmpty(Prefix(p))
    ensures FullTitle(p) == TrimOpt(p.title)
  {
  }

  /** With a prefix, the full title is the prefix, followed by a dot and the title when there is one. */
  lemma FullTitleWithPrefix(p: Poem)
    requires !IsNullOrEmpty(Prefix(p))
    ensures IsNullOrEmpty(TrimOpt(p.title)) ==> FullTitle(p) == Prefix(p)
    ensures !IsNullOrEmpty(TrimOpt(p.title)) ==>
              FullTitle(p) == Some(Dotted(Prefix(p).value, Trim(p.title.value)))
  {
  }

  /** A present section decides the prefix, even an empty one: the chapter is then ignored. */
  lemma SectionWins(p: Poem, chapter: Option<string>)
    requires p.section.Some?
    ensures FullTitle(p.(chapter := chapter)) == FullTitle(p)
  {
    var q := p.(chapter := chapter);
    assert q.section == p.section && q.title == p.title;
    assert Prefix(q) == TrimOpt(p.section) == Prefix(p);
    if IsNullOrEmpty(Prefix(p)) {
      FullTitleWithoutPrefix(p);
      FullTitleWithoutPrefix(q);
    } else {
      FullTitleWithPrefix(p);
      FullTitleWithPrefix(q);
    }
  }

  /** The element strings of a JSON array, in order, with every other element dropped. */
  function StringsOf(items: seq<Json>): (r: seq<string>)
    ensures r == Map(StrOf, Filter(items, IsStr))
  {
    if items == [] then []
    else
      var rest := StringsOf(items[1..]);
      StringsStep(items);
      if items[0].JStr? then [items[0].s] + rest else rest
  }

  /** Peeling the first element off a JSON array's strings. */
  lemma StringsStep(items: seq<Json>)
    requires items != []
    ensures Map(StrOf, Filter(items, IsStr)) ==
              (if items[0].JStr? then [items[0].s] else []) + Map(StrOf, Filter(items[1..], IsStr))
  {
    var tail := Filter(items[1..], IsStr);
    if items[0].JStr? {
      assert Filter(items, IsStr) == [items[0]] + tail by {
        assert IsStr(items[0]);
      }
      MapCons(StrOf, items[0], tail);
    } else {
      assert Filter(items, IsStr) == tail by {
        assert !IsStr(items[0]);
        assert [] + tail == tail;
      }
    }
  }

  predicate IsStr(j: Json) {
    j.JStr?
  }

  function StrOf(j: Json): string {
    if j.JStr? then j.s else ""
  }

  /** The paragraphs recovered from an extension `content` value, or null for any other kind. */
  function ContentParagraphs(v: Json): Option<seq<string>> {
    match v
    case JStr(s) => Some([s])
    case JArr(items) => Some(StringsOf(items))
    case _ => None
  }

  /** The title after folding a `rhythmic` tune name `s` into it. */
  function FoldRhythmic(title: Option<string>, s: string): Option<string> {
    if IsBlank(title) then Some(s)
    else if !IsBlank(Some(s)) && !StartsWith(title.value, s) then Some(Dotted(s, title.value))
    else title
  }

  /** The extension values `Reorganize` consults. */
  function Content(p: Poem): Option<Json> {
    if p.ext.Some? && "content" in p.ext.value then Some(p.ext.value["content"]) else None
  }

  function Rhythmic(p: Poem): Option<string> {
    if p.ext.Some? && "rhythmic" in p.ext.value && p.ext.value["rhythmic"].JStr?
    then Some(p.ext.value["rhythmic"].s) else None
  }

  /** The record after `Reorganize()`; only the paragraphs and the title may differ. */
  function Reorganized(p: Poem): (r: Poem)
    ensures r.(paragraphs := p.paragraphs, title := p.title) == p
  {
    if p.ext.None? then p
    else
      var paragraphs :=
        if p.paragraphs.None? && Content(p).Some? && ContentParagraphs(Content(p).value).Some?
        then ContentParagraphs(Content(p).value) else p.paragraphs;
      var title := if Rhythmic(p).Some? then FoldRhythmic(p.title, Rhythmic(p).value) else p.title;
      p.(paragraphs := paragraphs, title := title)
  }

  /** Without extension data nothing is repaired. */
  lemma ReorganizeWithoutExtension(p: Poem)
    requires p.ext.None?
    ensures Reorganized(p) == p
  {
  }

  /** Paragraphs are taken from `content` only when they are null, and only from a string or an array. */
  lemma ReorganizeParagraphs(p: Poem)
    ensures p.paragraphs.Some? || p.ext.None? || Content(p).None? ==>
              Reorganized(p).paragraphs == p.paragraphs
    ensures p.paragraphs.None? && Content(p).Some? && Content(p).value.JStr? ==>
              Reorganized(p).paragraphs == Some([Content(p).value.s])
    ensures p.paragraphs.None? && p.ext.Some? && Content(p).Some? && Content(p).value.JArr? ==>
              Reorganized(p).paragraphs == Some(Map(StrOf, Filter(Content(p).value.items, IsStr)))
    ensures p.paragraphs.None? && Content(p).Some? && !Content(p).value.JStr? && !Content(p).value.JArr? ==>
              Reorganized(p).paragraphs.None?
  {
  }

  /** The three outcomes of folding a string `rhythmic` value into the title. */
  lemma ReorganizeTitle(p: Poem)
    ensures Rhythmic(p).None? ==> Reorganized(p).title == p.title
    ensures Rhythmic(p).Some? && IsBlank(p.title) ==> Reorganized(p).title == Rhythmic(p)
    ensures Rhythmic(p).Some? && !IsBlank(p.title) && !IsBlank(Rhythmic(p)) && !StartsWith(p.title.value, Rhythmic(p).value) ==>
              Reorganized(p).title == Some(Dotted(Rhythmic(p).value, p.title.value))
    ensures Rhythmic(p).Some? && !IsBlank(p.title) && (IsBlank(Rhythmic(p)) || StartsWith(p.title.value, Rhythmic(p).value)) ==>
              Reorganized(p).title == p.title
  {
  }

  /** After folding, a non-blank tune name is a prefix of the title. */
  lemma FoldedTitleStartsWithTune(title: Option<string>, s: string)
    requires !IsBlank(Some(s))
    ensures FoldRhythmic(title, s).Some? && StartsWith(FoldRhythmic(title, s).value, s)
  {
    if !IsBlank(title) && !StartsWith(title.value, s) {
      assert Dotted(s, title.value)[..|s|] == s;
    }
  }

  /** Folding the same tune name a second time changes nothing. */
  lemma FoldRhythmicIdempotent(title: Option<string>, s: string)
    ensures FoldRhythmic(FoldRhythmic(title, s), s) == FoldRhythmic(title, s)
  {
    if !IsBlank(Some(s)) {
      FoldedTitleStartsWithTune(title, s);
      assert !IsBlank(FoldRhythmic(title, s)) by {
        var t := FoldRhythmic(title, s).value;
        var i :| 0 <= i < |s| && !IsWhiteSpace(s[i]);
        assert t[..|s|] == s;
        assert t[i] == s[i];
      }
    }
  }

  /** `Reorganize` is idempotent. */
  lemma ReorganizeIdempotent(p: Poem)
    ensures Reorganized(Reorganized(p)) == Reorganized(p)
  {
    if p.ext.Some? && Rhythmic(p).Some? {
      FoldRhythmicIdempotent(p.title, Rhythmic(p).value);
    }
  }

  /** `string.Join(sep, parts)` */
  function Join(sep: string, parts: seq<string>): string {
    if parts == [] then "" else if |parts| == 1 then parts[0] else Join(sep, parts[..|parts| - 1]) + sep + parts[|parts| - 1]
  }

  /** The present, non-blank strings of `xs`, in order. */
  function NonBlank(xs: seq<Option<string>>): (r: seq<string>)
    ensures forall i :: 0 <= i < |r| ==> !IsBlank(Some(r[i]))
    ensures r == [] <==> forall i :: 0 <= i < |xs| ==> IsBlank(xs[i])
  {
    if xs == [] then []
    else NonBlank(xs[..|xs| - 1]) + (if IsBlank(xs[|xs| - 1]) then [] else [xs[|xs| - 1].value])
  }

  /** The heading of the rendering: the non-blank chapter, section and title joined by middle dots. */
  function Heading(p: Poem): string {
    Join([MiddleDot], NonBlank([p.chapter, p.section, p.title]))
  }

  /** The dynasty in brackets and the author line, each only when non-blank. */
  function Byline(p: Poem, nl: string): string {
    (if IsBlank(p.dynasty) then "" else "[" + p.dynasty.value + "] ")
    + (if IsBlank(p.author) then "" else p.author.value + nl)
  }

  /** The non-blank paragraphs, one per line, set off by a blank line. */
  function Body(p: Poem, nl: string): string {
    var lines := if p.paragraphs.None? then [] else NonBlank(Map((x: string) => Some(x), p.paragraphs.value));
    if lines == [] then "" else nl + Join(nl, lines) + nl
  }

  /** Nothing of the record would be shown: every rendered field is blank, and so is every paragraph. */
  predicate ShowsNothing(p: Poem) {
    IsBlank(p.chapter) && IsBlank(p.section) && IsBlank(p.title) && IsBlank(p.dynasty) && IsBlank(p.author)
    && (p.paragraphs.None? || forall i :: 0 <= i < |p.paragraphs.value| ==> IsBlank(Some(p.paragraphs.value[i])))
  }

  /** The whole rendering of `ToString()`, with `nl` standing for `Environment.NewLine`. */
  function Rendering(p: Poem, nl: string): (r: string)
    ensures StartsWith(r, Heading(p))
    ensures r == "" <==> ShowsNothing(p)
  {
    var r := Heading(p) + (if IsBlank(p.title) then "" else nl) + Byline(p, nl) + Body(p, nl);
    assert r[..|Heading(p)|] == Heading(p);
    assert !IsBlank(p.author) ==> |p.author.value| > 0;
    BodyEmpty(p, nl);
    HeadingEmpty(p);
    r
  }

  /** The heading is empty exactly when chapter, section and title are all blank. */
  lemma HeadingEmpty(p: Poem)
    ensures Heading(p) == "" <==> IsBlank(p.chapter) && IsBlank(p.section) && IsBlank(p.title)
  {
    var xs := [p.chapter, p.section, p.title];
    assert xs[0] == p.chapter && xs[1] == p.section && xs[2] == p.title;
    var parts := NonBlank(xs);
    if parts != [] {
      var last := parts[|parts| - 1];
      assert !IsBlank(Some(last));
      assert AllWhiteSpace("");
      JoinOfNonEmpty([MiddleDot], parts);
    }
  }

  /** The paragraphs block is empty exactly when no paragraph is shown. */
  lemma BodyEmpty(p: Poem, nl: string)
    ensures Body(p, nl) == "" <==> p.paragraphs.None? || forall i :: 0 <= i < |p.paragraphs.value| ==> IsBlank(Some(p.paragraphs.value[i]))
  {
    if p.paragraphs.Some? {
      var m := Map((x: string) => Some(x), p.paragraphs.value);
      assert forall i :: 0 <= i < |m| ==> m[i] == Some(p.paragraphs.value[i]);
      var lines := NonBlank(m);
      if lines != [] {
        assert |Join(nl, lines)| > 0 by {
          JoinOfNonEmpty(nl, lines);
        }
      }
    }
  }

  /** A join whose last part is non-empty is non-empty. */
  lemma JoinOfNonEmpty(sep: string, parts: seq<string>)
    requires parts != [] && |parts[|parts| - 1]| > 0
    ensures |Join(sep, parts)| > 0
  {
  }

  lemma RenderingParts(p: Poem, nl: string, head: string, byline: string, body: string)
    requires head == Heading(p) + (if IsBlank(p.title) then "" else nl)
    requires byline == Byline(p, nl) && body == Body(p, nl)
    ensures head + byline + body == Rendering(p, nl)
  {
  }

  /** A mutable record, for the two members that work on one in place. */
  class PoetryModel {
    var id: Option<string>
    var chapter: Option<string>
    var section: Option<string>
    var title: Option<string>
    var author: Option<string>
    var dynasty: Option<string>
    var paragraphs: Option<seq<string>>
    var strains: Option<seq<string>>
    var ext: Option<map<string, Json>>

    /** The record the fields currently hold. */
    function Value(): Poem
      reads this
    {
      Poem(id, chapter, section, title, author, dynasty, paragraphs, strains, ext)
    }

    constructor (p: Poem)
      ensures Value() == p
    {
      id, chapter, section, title := p.id, p.chapter, p.section, p.title;
      author, dynasty, paragraphs, strains, ext := p.author, p.dynasty, p.paragraphs, p.strains, p.ext;
    }

    /** Repairs the legacy encodings in place. */
    method Reorganize()
      modifies this
      ensures Value() == Reorganized(old(Value()))
    {
      if ext.None? {
        return;
      }
      var data := ext.value;
      if paragraphs.None? && "content" in data {
        var content := data["content"];
        if content.JStr? {
          paragraphs := Some([content.s]);
        } else if content.JArr? {
          paragraphs := Some(StringsOf(content.items));
        }
      }
      if "rhythmic" in data {
        var rhythmic := data["rhythmic"];
        if rhythmic.JStr? {
          var s := rhythmic.s;
          if IsBlank(title) {
            title := Some(s);
          } else if !IsBlank(Some(s)) && !StartsWith(title.value, s) {
            title := Some(Dotted(s, title.value));
          }
        }
      }
    }

    /** Renders the record the way a string builder would, part by part. */
    method ToString(nl: string) returns (s: string)
      ensures s == Rendering(Value(), nl)
    {
      var head := HeadingLine(nl);
      var byline := BylineText(nl);
      var body := BodyText(nl);
      s := head + byline + body;
      RenderingParts(Value(), nl, head, byline, body);
    }

    /** The heading, ended by a newline when there is a title. */
    method HeadingLine(nl: string) returns (head: string)
      ensures head == Heading(Value()) + (if IsBlank(title) then "" else nl)
    {
      head := AppendPart([], "", chapter);
      head := AppendPart([chapter], head, section);
      head := AppendPart([chapter, section], head, title);
      assert [chapter, section] + [title] == [chapter, section, title];
      if !IsBlank(title) {
        head := head + nl;
      }
    }

    /** The dynasty and author line. */
    method BylineText(nl: string) returns (byline: string)
      ensures byline == Byline(Value(), nl)
    {
      byline := "";
      if !IsBlank(dynasty) {
        byline := "[" + dynasty.value + "] ";
      }
      if !IsBlank(author) {
        byline := byline + author.value + nl;
      }
    }

    /** The paragraphs block. */
    method BodyText(nl: string) returns (body: string)
      ensures body == Body(Value(), nl)
    {
      body := "";
      if paragraphs.Some? {
        var lines := NonBlank(Map((x: string) => Some(x), paragraphs.value));
        if |lines| > 0 {
          body := nl + Join(nl, lines) + nl;
        }
      }
    }
  }

  /** One `Append` of a heading part: a middle dot first when something is already written. */
  method AppendPart(ghost parts: seq<Option<string>>, s: string, x: Option<string>) returns (t: string)
    requires s == Join([MiddleDot], NonBlank(parts))
    ensures t == Join([MiddleDot], NonBlank(parts + [x]))
  {
    JoinStep(parts, x);
    t := s;
    if !IsBlank(x) {
      if |t| > 0 {
        t := t + [MiddleDot];
      }
      t := t + x.value;
    }
  }

  /** Appending one more part is what the builder does: a dot only after a non-empty prefix. */
  lemma JoinStep(parts: seq<Option<string>>, x: Option<string>)
    ensures var j := Join([MiddleDot], NonBlank(parts));
            Join([MiddleDot], NonBlank(parts + [x])) ==
              if IsBlank(x) then j else if |j| > 0 then j + [MiddleDot] + x.value else x.value
  {
    assert (parts + [x])[..|parts|] == parts;
    var n := NonBlank(parts);
    if !IsBlank(x) {
      assert NonBlank(parts + [x]) == n + [x.value];
      var m := n + [x.value];
      assert m[..|m| - 1] == n;
      if n != [] {
        NonEmptyJoin(n);
        assert Join([MiddleDot], m) == Join([MiddleDot], n) + [MiddleDot] + x.value;
      } else {
        assert m == [x.value];
      }
    } else {
      assert NonBlank(parts + [x]) == n;
    }
  }

  /** Joining non-blank parts yields a non-empty string whenever there is a part. */
  lemma NonEmptyJoin(n: seq<string>)
    requires n != []
    requires forall i :: 0 <= i < |n| ==> !IsBlank(Some(n[i]))
    ensures |Join([MiddleDot], n)| > 0
  {
    if |n| > 1 {
      NonEmptyJoin(n[..|n| - 1]);
    } else {
      assert n[0] != [];
    }
  }
}
