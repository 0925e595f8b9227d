/** LINQ operators over ordered sequences. */
module Seqs {
  import opened Wrappers


  /** `Where`: the elements that pass `keep`, in their original order. */
  function Filter<T>(s: seq<T>, keep: T -> bool): (r: seq<T>)
    ensures |r| <= |s|
    ensures forall i :: 0 <= i < |r| ==> r[i] in s && keep(r[i])
    ensures forall i :: 0 <= i < |s| && keep(s[i]) ==> s[i] in r
  {
    if s == [] then [] else (if keep(s[0]) then [s[0]] else []) + Filter(s[1..], keep)
  }

  /** `r` is obtained from `s` by deleting elements. */
  ghost predicate IsSubsequence<T>(r: seq<T>, s: seq<T>)
    decreases |s|
  {
    if s == [] then r == []
    else (r != [] && r[0] == s[0] && IsSubsequence(r[1..], s[1..])) || IsSubsequence(r, s[1..])
  }

  /** The empty sequence is a subsequence of every sequence. */
  lemma {:induction false} EmptyIsSubsequence<T>(s: seq<T>)
    ensures IsSubsequence([], s)
  {
    if s != [] {
      EmptyIsSubsequence(s[1..]);
    }
  }

  /** A subsequence holds nothing the sequence does not. */
  lemma {:induction false} SubsequenceMembers<T>(r: seq<T>, s: seq<T>)
    requires IsSubsequence(r, s)
    ensures forall x :: x in r ==> x in s
    decreases |s|
  {
    if s != [] {
      if r != [] && r[0] == s[0] && IsSubsequence(r[1..], s[1..]) {
        SubsequenceMembers(r[1..], s[1..]);
        assert forall x :: x in r ==> x == r[0] || x in r[1..];
      } else {
        SubsequenceMembers(r, s[1..]);
      }
    }
  }

  /** Filtering keeps the original order. */
  lemma {:induction false} FilterIsSubsequence<T>(s: seq<T>, keep: T -> bool)
    ensures IsSubsequence(Filter(s, keep), s)
  {
    if s != [] {
      FilterIsSubsequence(s[1..], keep);
      if keep(s[0]) {
        assert Filter(s, keep) == [s[0]] + Filter(s[1..], keep);
        assert Filter(s, keep)[1..] == Filter(s[1..], keep);
      } else {
        assert Filter(s, keep) == Filter(s[1..], keep);
      }
    }
  }

  /** `Where` distributes over concatenation. */
  lemma {:induction false} FilterAppend<T>(a: seq<T>, b: seq<T>, keep: T -> bool)
    ensures Filter(a + b, keep) == Filter(a, keep) + Filter(b, keep)
  {
    if a != [] {
      assert (a + b)[1..] == a[1..] + b;
      FilterAppend(a[1..], b, keep);
    } else {
      assert a + b == b;
    }
  }

  /** `Count` with a predicate. */
  function CountWhere<T>(s: seq<T>, keep: T -> bool): nat {
    if s == [] then 0 else CountWhere(s[..|s| - 1], keep) + (if keep(s[|s| - 1]) then 1 else 0)
  }

  /** `Count(keep)` is the length of `Where(keep)`. */
  lemma {:induction false} CountIsFilterLength<T>(s: seq<T>, keep: T -> bool)
    ensures CountWhere(s, keep) == |Filter(s, keep)|
  {
    if s != [] {
      var init := s[..|s| - 1];
      CountIsFilterLength(init, keep);
      assert s == init + [s[|s| - 1]];
      FilterAppend(init, [s[|s| - 1]], keep);
    }
  }

  /** Filtering out nothing is the identity. */
  lemma {:induction false} FilterAll<T>(s: seq<T>, keep: T -> bool)
    requires forall i :: 0 <= i < |s| ==> keep(s[i])
    ensures Filter(s, keep) == s
  {
    if s != [] {
      FilterAll(s[1..], keep);
    }
  }

  /** `Any` with a predicate. */
  function AnyOf<T>(s: seq<T>, p: T -> bool): (r: bool)
    ensures r <==> exists i :: 0 <= i < |s| && p(s[i])
  {
    if s == [] then false
    else if p(s[0]) then true
    else
      var r := AnyOf(s[1..], p);
      assert forall i :: 1 <= i < |s| ==> s[i] == s[1..][i - 1];
      r
  }

  /** `FindIndex`: the position of the first element that passes `p`. */
  function FirstIndex<T>(s: seq<T>, p: T -> bool): (r: Option<nat>)
    ensures r.Some? ==> r.value < |s| && p(s[r.value]) && forall j :: 0 <= j < r.value ==> !p(s[j])
    ensures r.None? <==> forall j :: 0 <= j < |s| ==> !p(s[j])
  {
    if s == [] then None
    else if p(s[0]) then Some(0)
    else
      var r := FirstIndex(s[1..], p);
      assert forall j :: 1 <= j < |s| ==> s[j] == s[1..][j - 1];
      if r.Some? then Some(r.value + 1) else None
  }

  /** Every element before position `i` answers `Ok(false)`, so a throwing `Any` walks past them. */
  predicate Undecided<T>(s: seq<T>, p: T -> Outcome<bool>, i: int) {
    forall j :: 0 <= j < i && j < |s| ==> p(s[j]) == Ok(false)
  }

  /** `Any` with a test that may throw: the first element whose test is not `Ok(false)` decides. */
  function AnyOutcome<T>(s: seq<T>, p: T -> Outcome<bool>): (r: Outcome<bool>)
    ensures r == Ok(true) <==> exists i :: 0 <= i < |s| && p(s[i]) == Ok(true) && Undecided(s, p, i)
    ensures r.Thrown? <==> exists i :: 0 <= i < |s| && p(s[i]).Thrown? && Undecided(s, p, i)
    ensures r.Thrown? ==> exists i :: 0 <= i < |s| && p(s[i]) == r
  {
    if s == [] then Ok(false)
    else if p(s[0]) != Ok(false) then
      assert Undecided(s, p, 0);
      assert forall i :: 0 < i < |s| ==> !Undecided(s, p, i);
      p(s[0])
    else
      var r := AnyOutcome(s[1..], p);
      assert forall i :: 1 <= i < |s| ==> s[i] == s[1..][i - 1];
      assert forall i :: 1 <= i <= |s| ==> (Undecided(s, p, i) <==> Undecided(s[1..], p, i - 1));
      r
  }

  /** A test that never throws makes `AnyOutcome` the plain `Any`. */
  lemma {:induction false} AnyOutcomeTotal<T>(s: seq<T>, p: T -> Outcome<bool>)
    requires forall i :: 0 <= i < |s| ==> p(s[i]).Ok?
    ensures AnyOutcome(s, p) == Ok(exists i :: 0 <= i < |s| && p(s[i]) == Ok(true))
  {
    if s != [] {
      assert forall i :: 1 <= i < |s| ==> s[i] == s[1..][i - 1];
      AnyOutcomeTotal(s[1..], p);
      if p(s[0]) == Ok(false) {
        assert AnyOutcome(s, p) == AnyOutcome(s[1..], p);
        assert (exists i :: 0 <= i < |s| && p(s[i]) == Ok(true)) ==> exists i :: 0 <= i < |s[1..]| && p(s[1..][i]) == Ok(true);
      } else {
        var o := p(s[0]);
        assert o.Ok? && o != Ok(false);
        assert o.value;
        assert o == Ok(true);
        assert AnyOutcome(s, p) == p(s[0]);
      }
    }
  }

  /** An element whose test does not answer `Ok(false)` keeps `AnyOutcome` from answering it. */
  lemma {:induction false} AnyOutcomeDecided<T>(s: seq<T>, p: T -> Outcome<bool>, i: int)
    requires 0 <= i < |s| && p(s[i]) != Ok(false)
    ensures AnyOutcome(s, p) != Ok(false)
  {
    if i > 0 && p(s[0]) == Ok(false) {
      assert s[1..][i - 1] == s[i];
      AnyOutcomeDecided(s[1..], p, i - 1);
    }
  }

  /** The plain test `Where` keeps for a test that may throw: the elements it accepts. */
  function Accepts<T>(p: T -> Outcome<bool>): T -> bool {
    x => p(x) == Ok(true)
  }

  /** `Where` with a test that may throw, enumerated to the end: the first throw escapes. */
  function FilterOutcome<T>(s: seq<T>, p: T -> Outcome<bool>): (r: Outcome<seq<T>>)
    ensures r.Thrown? <==> exists i :: 0 <= i < |s| && p(s[i]).Thrown?
    ensures r.Thrown? ==> exists i :: 0 <= i < |s| && p(s[i]) == Thrown(r.error) && forall j :: 0 <= j < i ==> p(s[j]).Ok?
    ensures r.Ok? ==> r.value == Filter(s, Accepts(p))
  {
    if s == [] then Ok([])
    else if p(s[0]).Thrown? then Thrown(p(s[0]).error)
    else
      var rest := FilterOutcome(s[1..], p);
      assert forall i :: 1 <= i < |s| ==> s[i] == s[1..][i - 1];
      if rest.Thrown? then rest
      else Ok((if p(s[0]) == Ok(true) then [s[0]] else []) + rest.value)
  }

  /** `Where` keeps each accepted element as often as it occurs, and no other element. */
  lemma {:induction false} FilterMultiset<T>(s: seq<T>, keep: T -> bool)
    ensures forall x :: multiset(Filter(s, keep))[x] == if keep(x) then multiset(s)[x] else 0
  {
    if s != [] {
      FilterMultiset(s[1..], keep);
      assert s == [s[0]] + s[1..];
      assert multiset(s) == multiset([s[0]]) + multiset(s[1..]);
    }
  }

  /** `Select` */
  function Map<T, U>(f: T -> U, s: seq<T>): (r: seq<U>)
    ensures |r| == |s|
    ensures forall i :: 0 <= i < |s| ==> r[i] == f(s[i])
  {
    seq(|s|, i requires 0 <= i < |s| => f(s[i]))
  }

  /** `Select` over a sequence with a first element. */
  lemma MapCons<T, U>(f: T -> U, x: T, s: seq<T>)
    ensures Map(f, [x] + s) == [f(x)] + Map(f, s)
  {
    var l, r := Map(f, [x] + s), [f(x)] + Map(f, s);
    forall i | 0 <= i < |l|
      ensures l[i] == r[i]
    {
      if i > 0 {
        assert ([x] + s)[i] == s[i - 1];
      }
    }
  }

  /** `Select` over a sequence with a last element. */
  lemma MapSnoc<T, U>(f: T -> U, s: seq<T>, x: T)
    ensures Map(f, s + [x]) == Map(f, s) + [f(x)]
  {
    var l, r := Map(f, s + [x]), Map(f, s) + [f(x)];
    forall i | 0 <= i < |l|
      ensures l[i] == r[i]
    {
      if i < |s| {
        assert (s + [x])[i] == s[i];
      }
    }
  }

  /** A non-empty sequence is its front followed by its last element. */
  lemma InitLast<T>(s: seq<T>)
    requires s != []
    ensures s[..|s| - 1] + [s[|s| - 1]] == s
  {
    var l := s[..|s| - 1] + [s[|s| - 1]];
    forall i | 0 <= i < |s| ensures l[i] == s[i] {
      if i < |s| - 1 {
        assert l[i] == s[..|s| - 1][i];
      }
    }
  }

  /** Replacing the appended element is appending the replacement. */
  lemma UpdateLast<T>(s: seq<T>, x: T, y: T)
    ensures (s + [x])[|s| := y] == s + [y]
  {
    var l, r := (s + [x])[|s| := y], s + [y];
    forall i | 0 <= i < |r| ensures l[i] == r[i] {
    }
  }

  /** `SelectMany` with the identity selector. */
  function Flatten<T>(ss: seq<seq<T>>): seq<T> {
    if ss == [] then [] else Flatten(ss[..|ss| - 1]) + ss[|ss| - 1]
  }

  /** The flattened length is the sum of the lengths. */
  function SumLengths<T>(ss: seq<seq<T>>): nat {
    if ss == [] then 0 else SumLengths(ss[..|ss| - 1]) + |ss[|ss| - 1]|
  }

  lemma {:induction false} FlattenLength<T>(ss: seq<seq<T>>)
    ensures |Flatten(ss)| == SumLengths(ss)
  {
    if ss != [] {
      FlattenLength(ss[..|ss| - 1]);
    }
  }

  /** An element of the flattening comes from one of the parts, and every part's elements occur. */
  lemma {:induction false} FlattenMembership<T>(ss: seq<seq<T>>, x: T)
    ensures x in Flatten(ss) <==> exists i :: 0 <= i < |ss| && x in ss[i]
  {
    if ss != [] {
      var init := ss[..|ss| - 1];
      FlattenMembership(init, x);
      if x in Flatten(ss) && x !in ss[|ss| - 1] {
        var i :| 0 <= i < |init| && x in init[i];
        assert ss[i] == init[i];
      }
      if (exists i :: 0 <= i < |ss| && x in ss[i]) && x !in ss[|ss| - 1] {
        var i :| 0 <= i < |ss| && x in ss[i];
        assert i < |init| && init[i] == ss[i];
      }
    }
  }

  /** Flattening a one-step-longer list appends the last part. */
  lemma FlattenSnoc<T>(ss: seq<seq<T>>, s: seq<T>)
    ensures Flatten(ss + [s]) == Flatten(ss) + s
  {
    assert (ss + [s])[..|ss|] == ss;
  }
}
