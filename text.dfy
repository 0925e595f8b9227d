/** The string primitives of the .NET base library that the core relies on. */
module Text {
  import opened Wrappers

  /** The separator placed between a prefix and a title: U+00B7 MIDDLE DOT. */
  const MiddleDot: char := '\U{00B7}'

  /** `char.IsWhiteSpace`: the Unicode White_Space characters. */
  predicate IsWhiteSpace(c: char) {
    ('\U{0009}' <= c <= '\U{000D}') || c == ' ' || c == '\U{0085}' || c == '\U{00A0}' || c == '\U{1680}'
    || ('\U{2000}' <= c <= '\U{200A}') || c == '\U{2028}' || c == '\U{2029}' || c == '\U{202F}'
    || c == '\U{205F}' || c == '\U{3000}'
  }

  /** Every character of `s` is white space (true of the empty string). */
  predicate AllWhiteSpace(s: string) {
    forall i :: 0 <= i < |s| ==> IsWhiteSpace(s[i])
  }

  /** `string.IsNullOrWhiteSpace` */
  predicate IsBlank(s: Option<string>) {
    s.None? || AllWhiteSpace(s.value)
  }

  /** `string.IsNullOrEmpty` */
  predicate IsNullOrEmpty(s: Option<string>) {
    s.None? || s.value == ""
  }

  /** `string.TrimStart()`: drops the leading white space and nothing else. */
  function TrimStart(s: string): (r: string)
    ensures |r| <= |s| && r == s[|s| - |r|..]
    ensures AllWhiteSpace(s[..|s| - |r|])
    ensures r != [] ==> !IsWhiteSpace(r[0])
  {
    if s != [] && IsWhiteSpace(s[0]) then
      var r := TrimStart(s[1..]);
      LeadingWhiteSpace(s, r);
      r
    else s
  }

  /** The trimmed suffix of all but a white first character is a trimmed suffix of the whole. */
  lemma LeadingWhiteSpace(s: string, r: string)
    requires s != [] && IsWhiteSpace(s[0])
    requires |r| <= |s| - 1 && r == s[1..][|s| - 1 - |r|..] && AllWhiteSpace(s[1..][..|s| - 1 - |r|])
    ensures r == s[|s| - |r|..] && AllWhiteSpace(s[..|s| - |r|])
  {
    var tail := s[1..];
    forall i | 0 <= i < |r|
      ensures r[i] == s[|s| - |r|..][i]
    {
      assert r[i] == tail[|s| - 1 - |r| + i] == s[|s| - |r| + i];
    }
    var lead := s[..|s| - |r|];
    forall j | 0 <= j < |lead|
      ensures IsWhiteSpace(lead[j])
    {
      if j > 0 {
        assert tail[..|s| - 1 - |r|][j - 1] == s[j];
      }
    }
  }

  /** `string.TrimEnd()`: drops the trailing white space and nothing else. */
  function TrimEnd(s: string): (r: string)
    ensures |r| <= |s| && r == s[..|r|]
    ensures AllWhiteSpace(s[|r|..])
    ensures r != [] ==> !IsWhiteSpace(r[|r| - 1])
  {
    if s != [] && IsWhiteSpace(s[|s| - 1]) then
      var r := TrimEnd(s[..|s| - 1]);
      TrailingWhiteSpace(s, r);
      r
    else s
  }

  /** The trimmed prefix of all but a white last character is a trimmed prefix of the whole. */
  lemma TrailingWhiteSpace(s: string, r: string)
    requires s != [] && IsWhiteSpace(s[|s| - 1])
    requires |r| <= |s| - 1 && r == s[..|s| - 1][..|r|] && AllWhiteSpace(s[..|s| - 1][|r|..])
    ensures r == s[..|r|] && AllWhiteSpace(s[|r|..])
  {
    var init := s[..|s| - 1];
    forall i | 0 <= i < |r|
      ensures r[i] == s[i]
    {
      assert r[i] == init[i];
    }
    forall j | 0 <= j < |s| - |r|
      ensures IsWhiteSpace(s[|r|..][j])
    {
      assert s[|r|..][j] == s[|r| + j];
      if |r| + j < |init| {
        assert init[|r|..][j] == init[|r| + j];
      }
    }
  }

  /** `string.Trim()` */
  function Trim(s: string): (r: string)
    ensures |r| <= |s|
    ensures r != [] ==> !IsWhiteSpace(r[0]) && !IsWhiteSpace(r[|r| - 1])
  {
    TrimEnd(TrimStart(s))
  }

  /** The UTF-16 code units of one character: two for a character beyond U+FFFF, else one. */
  function Utf16Width(c: char): nat {
    if c as int > 0xFFFF then 2 else 1
  }

  /** `string.Length`: the length in UTF-16 code units, between one and two per character. */
  function Utf16Length(s: string): (n: nat)
    ensures |s| <= n <= 2 * |s|
  {
    if s == [] then 0 else Utf16Width(s[0]) + Utf16Length(s[1..])
  }

  /** The UTF-16 length of a concatenation is the sum of the lengths. */
  lemma {:induction false} Utf16Append(a: string, b: string)
    ensures Utf16Length(a + b) == Utf16Length(a) + Utf16Length(b)
  {
    if a == [] {
      assert a + b == b;
    } else {
      var ab := a + b;
      assert ab[0] == a[0] && ab[1..] == a[1..] + b;
      Utf16Append(a[1..], b);
    }
  }

  /** A slice of a string is no longer in UTF-16 code units than the string. */
  lemma Utf16Slice(s: string, i: nat, j: nat)
    requires i <= j <= |s|
    ensures Utf16Length(s[i..j]) <= Utf16Length(s)
  {
    var front, mid, back := s[..i], s[i..j], s[j..];
    assert s[..j] == front + mid;
    assert s == s[..j] + back;
    Utf16Append(front, mid);
    Utf16Append(s[..j], back);
  }

  /** Trimming never lengthens a string in UTF-16 code units. */
  lemma Utf16Trim(s: string)
    ensures Utf16Length(Trim(s)) <= Utf16Length(s)
  {
    var t := TrimStart(s);
    assert t == s[|s| - |t|..|s|];
    Utf16Slice(s, |s| - |t|, |s|);
    var r := TrimEnd(t);
    assert r == t[0..|r|];
    Utf16Slice(t, 0, |r|);
  }

  /** `s?.Trim()` */
  function TrimOpt(s: Option<string>): (r: Option<string>)
    ensures r.None? <==> s.None?
    ensures r.Some? ==> IsTrimmed(r.value) && |r.value| <= |s.value|
  {
    if s.None? then None else Some(Trim(s.value))
  }

  /** A trimmed string is empty exactly when the original was blank. */
  lemma TrimEmptyIffBlank(s: string)
    ensures Trim(s) == [] <==> AllWhiteSpace(s)
  {
    var t := TrimStart(s);
    if Trim(s) == [] {
      assert AllWhiteSpace(t[|Trim(s)|..]);
      assert t == [];
      assert s[..|s| - |t|] == s;
    }
  }

  /** Trimming twice is trimming once. */
  lemma TrimIdempotent(s: string)
    ensures Trim(Trim(s)) == Trim(s)
  {
    var r := Trim(s);
    TrimStartNoop(r);
    TrimEndNoop(r);
  }

  lemma TrimStartNoop(s: string)
    requires s != [] ==> !IsWhiteSpace(s[0])
    ensures TrimStart(s) == s
  {
  }

  lemma TrimEndNoop(s: string)
    requires s != [] ==> !IsWhiteSpace(s[|s| - 1])
    ensures TrimEnd(s) == s
  {
  }

  /** A string that neither starts nor ends with white space is its own trim. */
  predicate IsTrimmed(s: string) {
    s != [] ==> !IsWhiteSpace(s[0]) && !IsWhiteSpace(s[|s| - 1])
  }

  lemma TrimmedIsFixpoint(s: string)
    requires IsTrimmed(s)
    ensures Trim(s) == s
  {
    TrimStartNoop(s);
    TrimEndNoop(s);
  }

  /** Culture-independent per-character case folding (ASCII upper case to lower case). */
  function FoldChar(c: char): char {
    if 'A' <= c <= 'Z' then (c as int + 32) as char else c
  }

  /** The folded form of a string: same length, folded position by position. */
  function Fold(s: string): (r: string)
    ensures |r| == |s|
    ensures forall i :: 0 <= i < |s| ==> r[i] == FoldChar(s[i])
  {
    seq(|s|, i requires 0 <= i < |s| => FoldChar(s[i]))
  }

  /** Folding never turns a blank string into a non-blank one or back. */
  lemma FoldKeepsBlank(s: string)
    ensures AllWhiteSpace(Fold(s)) <==> AllWhiteSpace(s)
  {
  }

  /** `a.Equals(b, StringComparison.CurrentCultureIgnoreCase)` for a non-null `a`. */
  predicate EqualsIgnoreCase(a: string, b: Option<string>) {
    b.Some? && Fold(a) == Fold(b.value)
  }

  /** `q` occurs in `s` as a contiguous block. */
  predicate IsSubstring(q: string, s: string) {
    exists i :: 0 <= i <= |s| - |q| && OccursAt(q, s, i)
  }

  /** `q` occurs in `s` starting at position `i`. */
  predicate OccursAt(q: string, s: string, i: int) {
    0 <= i <= |s| - |q| && s[i..i + |q|] == q
  }

  /** `s.StartsWith(p)` (ordinal). */
  predicate StartsWith(s: string, p: string) {
    |p| <= |s| && s[..|p|] == p
  }

  /** `p + "·" + t` */
  function Dotted(p: string, t: string): string {
    p + [MiddleDot] + t
  }

  /** Joining two non-empty trimmed strings with the dot gives a trimmed string. */
  lemma DottedTrimmed(p: string, t: string)
    requires p != [] && t != [] && IsTrimmed(p) && IsTrimmed(t)
    ensures IsTrimmed(Dotted(p, t))
  {
    var d := Dotted(p, t);
    assert d[0] == p[0];
    assert d[|d| - 1] == t[|t| - 1];
  }
}
