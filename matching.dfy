/**
 * The three matching helpers every search goes through (Chinese/PoetryPool.cs:475-493):
 * a case-insensitive substring test, a case-insensitive membership test, and
 * "contains any of these queries".
 */
module Matching {
  import opened Wrappers
  import opened Text
  import opened Seqs

  /** `Contains(s, q)`: false on a blank subject, otherwise `q` occurs in `s` ignoring case. */
  function Contains(s: Option<string>, q: string): (r: bool)
    ensures r <==> !IsBlank(s) && exists i :: 0 <= i <= |s.value| - |q| && MatchesAt(q, s.value, i)
    ensures r ==> |q| <= |s.value|
    ensures !IsBlank(s) && q == "" ==> r
    ensures !IsBlank(s) && EqualsIgnoreCase(q, s) ==> r
  {
    if IsBlank(s) then false
    else
      var t := s.value;
      assert forall i :: 0 <= i <= |t| - |q| ==> (OccursAt(Fold(q), Fold(t), i) <==> MatchesAt(q, t, i)) by {
        forall i | 0 <= i <= |t| - |q|
          ensures OccursAt(Fold(q), Fold(t), i) <==> MatchesAt(q, t, i)
        {
          if MatchesAt(q, t, i) {
            assert Fold(t)[i..i + |q|] == Fold(q);
          }
          if OccursAt(Fold(q), Fold(t), i) {
            var w := Fold(t)[i..i + |q|];
            assert forall k :: 0 <= k < |q| ==> w[k] == Fold(t)[i + k];
          }
        }
      }
      assert EqualsIgnoreCase(q, s) ==> MatchesAt(q, t, 0);
      assert q == "" ==> MatchesAt(q, t, 0);
      IsSubstring(Fold(q), Fold(t))
  }

  /** `q` matches `s` at position `i`, character by character, ignoring case. */
  predicate MatchesAt(q: string, s: string, i: int)
    requires 0 <= i <= |s| - |q|
  {
    forall k :: 0 <= k < |q| ==> FoldChar(s[i + k]) == FoldChar(q[k])
  }

  /** An element of a name list that counts as a match for `q`. */
  predicate NameMatches(ele: Option<string>, q: Option<string>) {
    !IsBlank(ele) && EqualsIgnoreCase(ele.value, q)
  }

  /** `Contains(col, q)`: some non-blank element equals `q` ignoring case. */
  function ContainsName(col: seq<Option<string>>, q: Option<string>): (r: bool)
    ensures r <==> exists i :: 0 <= i < |col| && NameMatches(col[i], q)
  {
    if col == [] then false
    else if NameMatches(col[0], q) then true
    else
      var r := ContainsName(col[1..], q);
      assert forall i :: 1 <= i < |col| ==> col[i] == col[1..][i - 1];
      r
  }

  /**
   * `Contains(s, q)` for one element of a query list: a blank subject answers false
   * before the query is read; otherwise a null query throws (`string.Contains(null)`).
   */
  function QueryHit(s: Option<string>, q: Option<string>): (r: Outcome<bool>)
    ensures r.Thrown? <==> !IsBlank(s) && q.None?
    ensures r.Thrown? ==> r.error == ArgumentNullException
    ensures r == Ok(true) <==> q.Some? && Contains(s, q.value)
  {
    if IsBlank(s) then Ok(false)
    else if q.None? then Thrown(ArgumentNullException)
    else Ok(Contains(s, q.value))
  }

  /** The per-query test `Contains(s, qs)` hands to `Any`. */
  function HitIn(s: Option<string>): Option<string> -> Outcome<bool> {
    q => QueryHit(s, q)
  }

  /** Every query before position `i` is present and does not occur in `s`. */
  predicate NoHitBefore(s: Option<string>, qs: seq<Option<string>>, i: int) {
    forall j :: 0 <= j < i && j < |qs| ==> qs[j].Some? && !Contains(s, qs[j].value)
  }

  /**
   * `Contains(s, qs)`: false for a blank subject or a null list; otherwise the queries
   * are tried in order, and the first one that is null or occurs in `s` decides, so a
   * null query throws unless an earlier query already matched.
   */
  function ContainsAny(s: Option<string>, qs: Option<seq<Option<string>>>): (r: Outcome<bool>)
    ensures IsBlank(s) || qs.None? ==> r == Ok(false)
    ensures r.Thrown? ==> r.error == ArgumentNullException
    ensures r == Ok(true) <==>
              !IsBlank(s) && qs.Some? && exists i :: 0 <= i < |qs.value| && qs.value[i].Some? && Contains(s, qs.value[i].value) && NoHitBefore(s, qs.value, i)
    ensures r.Thrown? <==>
              !IsBlank(s) && qs.Some? && exists i :: 0 <= i < |qs.value| && qs.value[i].None? && NoHitBefore(s, qs.value, i)
  {
    if IsBlank(s) || qs.None? then Ok(false)
    else
      var r := AnyOutcome(qs.value, HitIn(s));
      assert forall i :: 0 <= i <= |qs.value| ==> (Undecided(qs.value, HitIn(s), i) <==> NoHitBefore(s, qs.value, i)) by {
        forall i | 0 <= i <= |qs.value| && Undecided(qs.value, HitIn(s), i)
          ensures NoHitBefore(s, qs.value, i)
        {
          forall j | 0 <= j < i ensures qs.value[j].Some? && !Contains(s, qs.value[j].value) {
            assert HitIn(s)(qs.value[j]) == Ok(false);
          }
        }
        forall i | 0 <= i <= |qs.value| && NoHitBefore(s, qs.value, i)
          ensures Undecided(qs.value, HitIn(s), i)
        {
          forall j | 0 <= j < i ensures HitIn(s)(qs.value[j]) == Ok(false) {
            assert qs.value[j].Some? && !Contains(s, qs.value[j].value);
          }
        }
      }
      r
  }

  /** A query list as the nullable strings `Contains(col, q)` accepts. */
  function Lift(qs: seq<string>): (r: seq<Option<string>>)
    ensures |r| == |qs| && forall i :: 0 <= i < |qs| ==> r[i] == Some(qs[i])
  {
    seq(|qs|, i requires 0 <= i < |qs| => Some(qs[i]))
  }

  /** Folding is idempotent. */
  lemma FoldFold(s: string)
    ensures Fold(Fold(s)) == Fold(s)
  {
  }

  /** Folding maps a slice to the slice of the folded string. */
  lemma FoldSlice(s: string, i: int, j: int)
    requires 0 <= i <= j <= |s|
    ensures Fold(s[i..j]) == Fold(s)[i..j]
  {
  }

  /** A literal occurrence is a match: `Contains` never misses what a plain substring test finds. */
  lemma OccurrenceIsMatch(s: string, q: string, i: int)
    requires !IsBlank(Some(s)) && OccursAt(q, s, i)
    ensures Contains(Some(s), q)
  {
    FoldSlice(s, i, i + |q|);
    assert OccursAt(Fold(q), Fold(s), i);
  }

  /** The test only sees folded text: a query and its folded form match the same subjects. */
  lemma ContainsIgnoresCase(s: Option<string>, q: string)
    ensures Contains(s, q) == Contains(s, Fold(q))
  {
    FoldFold(q);
  }

  /** The empty query occurs in every non-blank subject. */
  lemma EmptyQueryMatches(s: Option<string>)
    requires !IsBlank(s)
    ensures Contains(s, "")
  {
    assert OccursAt(Fold(""), Fold(s.value), 0);
  }

  /** A blank subject matches nothing, and neither does a null query list. */
  lemma BlankMatchesNothing(s: Option<string>, q: string, qs: Option<seq<Option<string>>>)
    ensures IsBlank(s) ==> !Contains(s, q) && ContainsAny(s, qs) == Ok(false)
    ensures qs.None? ==> ContainsAny(s, qs) == Ok(false)
  {
  }

  /** A query list without null elements. */
  predicate NullFree(qs: seq<Option<string>>) {
    forall i :: 0 <= i < |qs| ==> qs[i].Some?
  }

  /** A list without null queries never throws: it answers whether some query occurs in `s`. */
  lemma NullFreeContainsAny(s: Option<string>, qs: seq<Option<string>>)
    requires NullFree(qs)
    ensures ContainsAny(s, Some(qs)) == Ok(!IsBlank(s) && exists i :: 0 <= i < |qs| && Contains(s, qs[i].value))
  {
    if !IsBlank(s) {
      assert forall i :: 0 <= i < |qs| ==> HitIn(s)(qs[i]) == Ok(Contains(s, qs[i].value));
      AnyOutcomeTotal(qs, HitIn(s));
    }
  }

  /** Every non-blank element is found by its own name, and by any spelling that folds to it. */
  lemma ElementIsFound(col: seq<Option<string>>, i: int, q: string)
    requires 0 <= i < |col| && !IsBlank(col[i]) && Fold(q) == Fold(col[i].value)
    ensures ContainsName(col, col[i]) && ContainsName(col, Some(q))
  {
    assert NameMatches(col[i], col[i]);
    assert NameMatches(col[i], Some(q));
  }

  /** A null name is never found. */
  lemma NullNameNeverFound(col: seq<Option<string>>)
    ensures !ContainsName(col, None)
  {
  }
}
