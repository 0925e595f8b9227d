/**
 * Authors (Chinese/AuthorInfo.cs). An author is an object: indexes compare authors by
 * reference, and the author side-file updates the shared objects in place.
 */
module Authors {
  import opened Wrappers
  import opened Seqs

  class AuthorInfo {
    var id: Option<string>
    var name: Option<string>
    var introduction: Option<string>

    /** `new AuthorInfo { Name = name }` */
    constructor (name: Option<string>)
      ensures this.name == name && id.None? && introduction.None?
    {
      this.name := name;
      id := None;
      introduction := None;
    }
  }

  /** `author?.Name` */
  function NameOf(a: AuthorInfo?): Option<string>
    reads a
  {
    if a == null then None else a.name
  }

  /** The current names of a registry, in order. */
  function Names(reg: seq<AuthorInfo>): (r: seq<Option<string>>)
    reads reg
    ensures |r| == |reg| && forall i :: 0 <= i < |reg| ==> r[i] == reg[i].name
  {
    seq(|reg|, i reads reg requires 0 <= i < |reg| => reg[i].name)
  }

  /** The current ids of a registry, in order. */
  function Ids(reg: seq<AuthorInfo>): (r: seq<Option<string>>)
    reads reg
    ensures |r| == |reg| && forall i :: 0 <= i < |reg| ==> r[i] == reg[i].id
  {
    seq(|reg|, i reads reg requires 0 <= i < |reg| => reg[i].id)
  }

  /** The positions whose flag is set, in increasing order. */
  function Flagged(flags: seq<bool>): (r: seq<nat>)
    ensures forall k :: 0 <= k < |r| ==> r[k] < |flags| && flags[r[k]]
  {
    if flags == [] then []
    else
      var n := |flags| - 1;
      var rest := Flagged(flags[..n]);
      assert forall k :: 0 <= k < |rest| ==> flags[..n][rest[k]] == flags[rest[k]];
      rest + (if flags[n] then [n] else [])
  }

  /** Those positions increase, and every flagged position is among them. */
  lemma {:induction false} FlaggedOrdered(flags: seq<bool>)
    ensures forall k, l :: 0 <= k < l < |Flagged(flags)| ==> Flagged(flags)[k] < Flagged(flags)[l]
    ensures forall i :: 0 <= i < |flags| && flags[i] ==> i in Flagged(flags)
  {
    if flags != [] {
      var n := |flags| - 1;
      FlaggedOrdered(flags[..n]);
      assert forall i :: 0 <= i < n ==> flags[..n][i] == flags[i];
    }
  }

  /** No position before the head of that list is flagged. */
  lemma FlaggedHead(flags: seq<bool>)
    requires Flagged(flags) != []
    ensures forall j :: 0 <= j < Flagged(flags)[0] ==> !flags[j]
  {
    FlaggedOrdered(flags);
    var r := Flagged(flags);
    forall j | 0 <= j < r[0] && flags[j]
      ensures j in r
    {
    }
  }

  /**
   * The registry members whose `flags` entry is set, in registry order (`Where`): the
   * members at the flagged positions, each position once.
   */
  function Pick(reg: seq<AuthorInfo>, flags: seq<bool>): (r: seq<AuthorInfo>)
    requires |flags| == |reg|
    ensures |r| == |Flagged(flags)| && forall k :: 0 <= k < |r| ==> r[k] == reg[Flagged(flags)[k]]
  {
    if reg == [] then []
    else
      var n := |reg| - 1;
      var rest := Pick(reg[..n], flags[..n]);
      assert forall i :: 0 <= i < n ==> reg[..n][i] == reg[i] && flags[..n][i] == flags[i];
      rest + (if flags[n] then [reg[n]] else [])
  }

  /** The picked members are exactly the flagged ones. */
  lemma PickMembers(reg: seq<AuthorInfo>, flags: seq<bool>)
    requires |flags| == |reg|
    ensures forall i :: 0 <= i < |reg| && flags[i] ==> reg[i] in Pick(reg, flags)
    ensures forall a :: a in Pick(reg, flags) ==> exists i :: 0 <= i < |reg| && flags[i] && reg[i] == a
  {
    var r, f := Pick(reg, flags), Flagged(flags);
    FlaggedOrdered(flags);
    forall i | 0 <= i < |reg| && flags[i]
      ensures reg[i] in r
    {
      var k :| 0 <= k < |f| && f[k] == i;
      assert r[k] == reg[i];
    }
    forall a | a in r
      ensures exists i :: 0 <= i < |reg| && flags[i] && reg[i] == a
    {
      var k :| 0 <= k < |r| && r[k] == a;
      assert reg[f[k]] == a;
    }
  }

  /** `FirstOrDefault(ele => ele?.Name == name)`: the position of the first author with exactly that name. */
  function FirstNamed(reg: seq<AuthorInfo>, name: Option<string>): (r: Option<nat>)
    reads reg
    ensures r.Some? ==> r.value < |reg| && reg[r.value].name == name
    ensures r.Some? ==> forall j :: 0 <= j < r.value ==> reg[j].name != name
    ensures r.None? <==> forall j :: 0 <= j < |reg| ==> reg[j].name != name
  {
    FirstIndex(Names(reg), (n: Option<string>) => n == name)
  }

  /** `FirstOrDefault(ele => ele.Id == id)`: the position of the first author with exactly that id. */
  function FirstWithId(reg: seq<AuthorInfo>, id: Option<string>): (r: Option<nat>)
    reads reg
    ensures r.Some? ==> r.value < |reg| && reg[r.value].id == id
    ensures r.Some? ==> forall j :: 0 <= j < r.value ==> reg[j].id != id
    ensures r.None? <==> forall j :: 0 <= j < |reg| ==> reg[j].id != id
  {
    FirstIndex(Ids(reg), (x: Option<string>) => x == id)
  }

  /** Appending an author does not move the first author of any name already present. */
  lemma FirstNamedAppend(reg: seq<AuthorInfo>, a: AuthorInfo, name: Option<string>)
    ensures FirstNamed(reg + [a], name) ==
            if FirstNamed(reg, name).Some? then FirstNamed(reg, name) else if a.name == name then Some(|reg|) else None
  {
    var all := reg + [a];
    var r := FirstNamed(all, name);
    var s := FirstNamed(reg, name);
    assert forall j :: 0 <= j < |reg| ==> all[j] == reg[j];
    if s.Some? {
      assert r.Some? && !(r.value < s.value) && !(s.value < r.value);
    } else if a.name == name {
      assert all[|reg|].name == name;
      assert r.Some? && r.value == |reg|;
    }
  }

  /**
   * `a` is `null`, or the first registry author with its name, which is neither null nor empty:
   * the shape of every author that name resolution hands out.
   */
  ghost predicate Canonical(reg: seq<AuthorInfo>, a: AuthorInfo?)
    reads reg, a
  {
    a != null ==>
      a.name.Some? && a.name.value != "" && FirstNamed(reg, a.name).Some? && reg[FirstNamed(reg, a.name).value] == a
  }

  /** Canonical authors are told apart by their names. */
  lemma CanonicalByName(reg: seq<AuthorInfo>, a: AuthorInfo?, b: AuthorInfo?)
    requires Canonical(reg, a) && Canonical(reg, b)
    ensures a == b <==> NameOf(a) == NameOf(b)
  {
  }

  /** Authors appended to a registry leave every canonical author canonical. */
  lemma CanonicalExtends(reg: seq<AuthorInfo>, more: seq<AuthorInfo>, a: AuthorInfo?)
    requires Canonical(reg, a)
    ensures Canonical(reg + more, a)
  {
    if a != null {
      var i := FirstNamed(reg, a.name).value;
      var all := reg + more;
      assert all[i] == a;
      assert forall j :: 0 <= j < i ==> all[j] == reg[j];
      var r := FirstNamed(all, a.name);
      assert !(r.value < i) && !(i < r.value);
    }
  }
}
