/** The State container: at most one leaf per producer name, traversed in
    ascending name order (the container's `ordered` index), with `update`
    and `remove` as its mutators. */
module StateStore {
  import opened SyncTypes

  /** Byte-wise lexicographic order on names. */
  predicate NameLess(a: string, b: string)
    decreases |a|
  {
    if |a| == 0 then |b| > 0
    else |b| > 0 && (a[0] < b[0] || (a[0] == b[0] && NameLess(a[1..], b[1..])))
  }

  lemma {:induction false} NameLessIrreflexive(a: string)
    ensures !NameLess(a, a)
    decreases |a|
  {
    if |a| > 0 {
      NameLessIrreflexive(a[1..]);
    }
  }

  lemma {:induction false} NameLessTransitive(a: string, b: string, c: string)
    requires NameLess(a, b) && NameLess(b, c)
    ensures NameLess(a, c)
    decreases |a|
  {
    if |a| > 0 && a[0] == b[0] && b[0] == c[0] {
      NameLessTransitive(a[1..], b[1..], c[1..]);
    }
  }

  lemma {:induction false} NameLessTotal(a: string, b: string)
    requires a != b
    ensures NameLess(a, b) || NameLess(b, a)
    decreases |a|
  {
    if |a| > 0 && |b| > 0 && a[0] == b[0] {
      assert a == [a[0]] + a[1..] && b == [b[0]] + b[1..];
      NameLessTotal(a[1..], b[1..]);
    }
  }

  /** Every leaf of `ls` has a name greater than `name`. */
  predicate Above(name: string, ls: seq<Leaf>) {
    forall l | l in ls :: NameLess(name, l.info.name)
  }

  /** `ls` is in strictly ascending name order (so no name occurs twice). */
  predicate Sorted(ls: seq<Leaf>) {
    ls == [] || (Above(ls[0].info.name, ls[1..]) && Sorted(ls[1..]))
  }

  /** The abstract content of a traversal: producer name to its leaf. */
  function ToMap(ls: seq<Leaf>): map<string, Leaf> {
    if ls == [] then map[] else ToMap(ls[1..])[ls[0].info.name := ls[0]]
  }

  /** `ls` with `x` stored under its name, replacing the leaf of that name
      if there is one, and otherwise placed in name order. */
  function Upsert(ls: seq<Leaf>, x: Leaf): seq<Leaf> {
    if ls == [] || NameLess(x.info.name, ls[0].info.name) then [x] + ls
    else if x.info.name == ls[0].info.name then [x] + ls[1..]
    else [ls[0]] + Upsert(ls[1..], x)
  }

  /** `ls` without any leaf named `name`. */
  function Erase(ls: seq<Leaf>, name: string): seq<Leaf> {
    if ls == [] then []
    else if ls[0].info.name == name then Erase(ls[1..], name)
    else [ls[0]] + Erase(ls[1..], name)
  }

  lemma {:induction false} AboveTransitive(a: string, b: string, ls: seq<Leaf>)
    requires NameLess(a, b) && Above(b, ls)
    ensures Above(a, ls)
  {
    forall l | l in ls ensures NameLess(a, l.info.name) {
      NameLessTransitive(a, b, l.info.name);
    }
  }

  /** Storing a leaf replaces exactly the entry of its name and keeps the
      traversal in ascending name order. */
  lemma {:induction false} UpsertSpec(ls: seq<Leaf>, x: Leaf)
    ensures ToMap(Upsert(ls, x)) == ToMap(ls)[x.info.name := x]
    ensures forall l | l in Upsert(ls, x) :: l == x || l in ls
    ensures Sorted(ls) ==> Sorted(Upsert(ls, x))
  {
    if ls == [] || NameLess(x.info.name, ls[0].info.name) {
      assert ([x] + ls)[1..] == ls;
      if ls != [] && Sorted(ls) {
        AboveTransitive(x.info.name, ls[0].info.name, ls[1..]);
        assert ls == [ls[0]] + ls[1..];
      }
    } else if x.info.name == ls[0].info.name {
      assert ([x] + ls[1..])[1..] == ls[1..];
    } else {
      var rest := Upsert(ls[1..], x);
      UpsertSpec(ls[1..], x);
      assert ([ls[0]] + rest)[1..] == rest;
      assert ToMap(ls) == ToMap(ls[1..])[ls[0].info.name := ls[0]];
      if Sorted(ls) {
        NameLessTotal(x.info.name, ls[0].info.name);
        forall l | l in rest ensures NameLess(ls[0].info.name, l.info.name) {
        }
      }
    }
  }

  /** Erasing a name removes exactly its entry and keeps the traversal in
      ascending name order. */
  lemma {:induction false} EraseSpec(ls: seq<Leaf>, name: string)
    ensures ToMap(Erase(ls, name)) == ToMap(ls) - {name}
    ensures forall l | l in Erase(ls, name) :: l in ls
    ensures Sorted(ls) ==> Sorted(Erase(ls, name))
  {
    if ls != [] {
      var rest := Erase(ls[1..], name);
      EraseSpec(ls[1..], name);
      if ls[0].info.name != name {
        assert ([ls[0]] + rest)[1..] == rest;
      }
    }
  }

  /** Every prefix of a sorted traversal is sorted. */
  lemma {:induction false} SortedPrefix(ls: seq<Leaf>, k: nat)
    requires Sorted(ls) && k <= |ls|
    ensures Sorted(ls[..k])
  {
    if k > 0 {
      SortedPrefix(ls[1..], k - 1);
      assert ls[..k][1..] == ls[1..][..k - 1];
      forall l | l in ls[..k][1..] ensures NameLess(ls[0].info.name, l.info.name) {
        assert l in ls[1..];
      }
    }
  }

  /** In a sorted traversal the map holds each leaf under its own name. */
  lemma {:induction false} ToMapAt(ls: seq<Leaf>, i: nat)
    requires Sorted(ls) && i < |ls|
    ensures ls[i].info.name in ToMap(ls) && ToMap(ls)[ls[i].info.name] == ls[i]
  {
    if i > 0 {
      ToMapAt(ls[1..], i - 1);
      assert ls[i] in ls[1..];
      NameLessIrreflexive(ls[0].info.name);
    }
  }

  /** In a sorted traversal the last leaf may equally be added last. */
  lemma {:induction false} ToMapLast(ls: seq<Leaf>)
    requires Sorted(ls) && ls != []
    ensures ToMap(ls) == ToMap(ls[..|ls| - 1])[ls[|ls| - 1].info.name := ls[|ls| - 1]]
  {
    if |ls| > 1 {
      var rest := ls[1..];
      ToMapLast(rest);
      assert rest[|rest| - 1] in rest;
      NameLessIrreflexive(ls[0].info.name);
      assert ls[..|ls| - 1] == [ls[0]] + rest[..|rest| - 1];
      assert (ls[..|ls| - 1])[1..] == rest[..|rest| - 1];
    }
  }

  class State {
    /** The leaves in the container's `ordered` traversal. */
    var leaves: seq<Leaf>

    ghost predicate Valid()
      reads this
    {
      Sorted(leaves)
    }

    /** Lookup by name: the leaf stored for each producer. */
    ghost function Contents(): map<string, Leaf>
      reads this
    {
      ToMap(leaves)
    }

    constructor ()
      ensures Valid() && leaves == []
    {
      leaves := [];
    }

    /** Stores `(info, seqNo, wireData)` as the plain leaf of `info`'s producer,
        replacing any leaf it had. */
    method Update(info: NameInfo, seqNo: SeqNo, wireData: string)
      requires Valid()
      modifies this
      ensures Valid()
      ensures Contents() == old(Contents())[info.name := Leaf(info, seqNo, wireData, None)]
    {
      UpsertSpec(leaves, Leaf(info, seqNo, wireData, None));
      leaves := Upsert(leaves, Leaf(info, seqNo, wireData, None));
    }

    /** Deletes the leaf of `info`'s producer if there is one; otherwise does nothing. */
    method Remove(info: NameInfo)
      requires Valid()
      modifies this
      ensures Valid()
      ensures Contents() == old(Contents()) - {info.name}
    {
      EraseSpec(leaves, info.name);
      leaves := Erase(leaves, info.name);
    }
  }
}
