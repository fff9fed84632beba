/** The process-wide interning table behind `StdNameInfo::FindOrCreate`:
    an append-only table from name to handle, so that equal names always
    resolve to the identical handle. */
module Interning {
  import opened SyncTypes

  predicate Distinct(names: seq<string>) {
    forall i, j | 0 <= i < j < |names| :: names[i] != names[j]
  }

  /** The position of the first occurrence of `s` in `names`, or `|names|`
      when `s` does not occur. */
  function IndexOf(names: seq<string>, s: string): (i: nat)
    ensures i <= |names|
    ensures i < |names| ==> names[i] == s
    ensures forall j | 0 <= j < i :: names[j] != s
  {
    if names == [] then 0
    else if names[0] == s then 0
    else 1 + IndexOf(names[1..], s)
  }

  /** The table after a lookup, and the handle the lookup returned. */
  datatype Interned = Interned(names: seq<string>, info: NameInfo)

  /** What `FindOrCreate(s)` does to a table holding `names`: it returns the
      handle already registered for `s`, or registers `s` under a new handle
      at the end of the table. */
  function Intern(names: seq<string>, s: string): Interned
  {
    var i := IndexOf(names, s);
    if i < |names| then Interned(names, NameInfo(i, s))
    else Interned(names + [s], NameInfo(|names|, s))
  }

  /** The table only grows, by at most the one name looked up; the handle
      returned is the first registration of that name. */
  lemma InternSpec(names: seq<string>, s: string)
    ensures var r := Intern(names, s);
            names <= r.names && |r.names| <= |names| + 1 &&
            (s in names ==> r.names == names) &&
            r.info.name == s && r.info.id < |r.names| && r.names[r.info.id] == s &&
            (forall j | 0 <= j < r.info.id :: r.names[j] != s)
  {
  }

  /** Interning never registers a name twice. */
  lemma InternKeepsDistinct(names: seq<string>, s: string)
    requires Distinct(names)
    ensures Distinct(Intern(names, s).names)
  {
  }

  /** `info` is the handle the table holding `names` has for its name. */
  predicate Registered(names: seq<string>, info: NameInfo) {
    info.id < |names| && names[info.id] == info.name
  }

  /** Looking up a name that is already registered returns its handle and
      leaves the table as it is. */
  lemma InternRegistered(names: seq<string>, info: NameInfo)
    requires Distinct(names) && Registered(names, info)
    ensures Intern(names, info.name) == Interned(names, info)
  {
  }

  /** A handle registered in a table stays registered as the table grows. */
  lemma RegisteredGrows(names: seq<string>, more: seq<string>, info: NameInfo)
    requires names <= more && Registered(names, info)
    ensures Registered(more, info)
  {
  }

  /** Handles are stable: after `s` has been looked up once, every later
      lookup of `s`, whatever was interned in between, returns the same
      handle and adds nothing. */
  lemma InternStable(names: seq<string>, s: string, later: seq<string>)
    ensures var first := Intern(names, s);
            Intern(first.names + later, s) == Interned(first.names + later, first.info)
  {
    InternSpec(names, s);
    var first := Intern(names, s);
    var table := first.names + later;
    assert table[first.info.id] == s;
  }

  class NameTable {
    /** The registered names; a handle is a position in this sequence. */
    var names: seq<string>
    /** The hash index from name to handle. */
    var index: map<string, nat>

    ghost predicate Valid()
      reads this
    {
      Distinct(names) &&
      (forall s | s in index :: index[s] < |names| && names[index[s]] == s) &&
      (forall i | 0 <= i < |names| :: names[i] in index)
    }

    constructor ()
      ensures Valid() && names == []
    {
      names := [];
      index := map[];
    }

    /** Returns the handle for `s`, creating it if `s` was never seen. */
    method FindOrCreate(s: string) returns (info: NameInfo)
      requires Valid()
      modifies this
      ensures Valid()
      ensures Intern(old(names), s) == Interned(names, info)
    {
      if s in index {
        info := NameInfo(index[s], s);
        InternRegistered(names, info);
      } else {
        assert forall i | 0 <= i < |names| :: names[i] != s;
        InternKeepsDistinct(names, s);
        info := NameInfo(|names|, s);
        names := names + [s];
        index := index[s := info.id];
      }
    }
  }
}
