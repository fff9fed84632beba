/** The state-message codec: `operator<<` writes one record per leaf of a
    State, `operator>>` replays a message's records as `update` and `remove`
    calls on a target State. */
module StateCodec {
  import opened SyncTypes
  import opened Decimal
  import opened Interning
  import opened StateStore
  import opened Messages

  // ---------------------------------------------------------------------
  // Encoding
  // ---------------------------------------------------------------------

  /** The record `operator<<` writes for one leaf. */
  function EncodeLeaf(leaf: Leaf): (r: SyncRecord)
    ensures r.kind == ActionType.Delete <==> (leaf.op.Some? && leaf.op.value != Operation.Update)
    ensures r.kind != ActionType.Other
    ensures r.seqno.Some? <==> r.kind == ActionType.Update
    ensures r.seqno.Some? ==>
              ParseU32(r.seqno.value.session) == Some(leaf.seqNo.session) &&
              ParseU32(r.seqno.value.number) == Some(leaf.seqNo.number)
    ensures r.name == leaf.info.name && r.wireData == leaf.wireData
  {
    var kind := if leaf.op.Some? && leaf.op.value != Operation.Update then ActionType.Delete
                else ActionType.Update;
    var seqno := if leaf.op.None? || leaf.op.value == Operation.Update
                 then Some(WireSeqNo(ToDecimal(leaf.seqNo.session), ToDecimal(leaf.seqNo.number)))
                 else None;
    ParseOfDecimal(leaf.seqNo.session);
    ParseOfDecimal(leaf.seqNo.number);
    SyncRecord(kind, leaf.info.name, leaf.wireData, seqno)
  }

  /** The records written for a traversal, one per leaf, in traversal order. */
  function EncodeAll(ls: seq<Leaf>): (rs: seq<SyncRecord>)
    ensures |rs| == |ls|
    ensures forall i | 0 <= i < |ls| :: rs[i] == EncodeLeaf(ls[i])
  {
    if ls == [] then [] else EncodeAll(ls[..|ls| - 1]) + [EncodeLeaf(ls[|ls| - 1])]
  }

  /** `operator<<`: appends one record per leaf of `state`, in the order of
      its traversal, after the records `msg` already holds. */
  method Encode(msg: StateMsg, state: State)
    modifies msg
    ensures msg.records == old(msg.records) + EncodeAll(state.leaves)
    ensures unchanged(state)
  {
    var i := 0;
    while i < |state.leaves|
      invariant 0 <= i <= |state.leaves|
      invariant msg.records == old(msg.records) + EncodeAll(state.leaves[..i])
    {
      var leaf := state.leaves[i];
      var kind := ActionType.Update;
      if leaf.op.Some? && leaf.op.value != Operation.Update {
        kind := ActionType.Delete;
      }
      var seqno := None;
      if leaf.op.None? || leaf.op.value == Operation.Update {
        seqno := Some(WireSeqNo(ToDecimal(leaf.seqNo.session), ToDecimal(leaf.seqNo.number)));
      }
      msg.AddRecord(SyncRecord(kind, leaf.info.name, leaf.wireData, seqno));
      assert state.leaves[..i + 1][..i] == state.leaves[..i];
      i := i + 1;
    }
    assert state.leaves[..i] == state.leaves;
  }

  // ---------------------------------------------------------------------
  // Decoding
  // ---------------------------------------------------------------------

  /** The seqno sub-record as read: an unset sub-record reads as its
      default, whose two text fields are empty. */
  function SeqNoText(r: SyncRecord): WireSeqNo {
    if r.seqno.Some? then r.seqno.value else WireSeqNo("", "")
  }

  /** The two numeric conversions of an UPDATE record; None when either fails. */
  function ParseSeqNo(r: SyncRecord): Option<SeqNo> {
    var text := SeqNoText(r);
    var session := ParseU32(text.session);
    var number := ParseU32(text.number);
    if session.Some? && number.Some? then Some(SeqNo(session.value, number.value)) else None
  }

  /** An UPDATE record that carries no seqno sub-record reads two empty
      fields, which do not convert: decoding stops at it, with its name
      interned and the target as it was. */
  lemma MissingSeqNoFails(names: seq<string>, contents: map<string, Leaf>, name: string, wireData: string, i: nat)
    ensures ApplyRecord(names, contents, SyncRecord(ActionType.Update, name, wireData, None), i)
            == Replay(Intern(names, name).names, contents, Some(i))
  {
  }

  /** Where a replay got to: the interning table, the target's contents, and
      the index of the record whose conversion failed, if one did. */
  datatype Replay = Replay(names: seq<string>, contents: map<string, Leaf>, failedAt: Option<nat>)

  /** Replaying record `r`, at index `i`, against a table and a target: the
      name is interned first; an UPDATE record whose seqno does not convert
      stops the replay there; otherwise an UPDATE stores the leaf and any
      other record removes the name. */
  function ApplyRecord(names: seq<string>, contents: map<string, Leaf>, r: SyncRecord, i: nat): Replay {
    var interned := Intern(names, r.name);
    if r.kind == ActionType.Update then
      match ParseSeqNo(r)
      case None => Replay(interned.names, contents, Some(i))
      case Some(sn) => Replay(interned.names, contents[r.name := Leaf(interned.info, sn, r.wireData, None)], None)
    else
      Replay(interned.names, contents - {r.name}, None)
  }

  /** `operator>>` after its first `n` iterations, as a function of the table
      and the target's contents: records are applied in index order until one
      fails to convert. */
  function ReplayPrefix(names: seq<string>, contents: map<string, Leaf>, rs: seq<SyncRecord>, n: nat): (out: Replay)
    requires n <= |rs|
    ensures out.failedAt.Some? ==>
              out.failedAt.value < n &&
              rs[out.failedAt.value].kind == ActionType.Update &&
              ParseSeqNo(rs[out.failedAt.value]) == None
  {
    if n == 0 then Replay(names, contents, None)
    else
      var before := ReplayPrefix(names, contents, rs, n - 1);
      if before.failedAt.Some? then before
      else ApplyRecord(before.names, before.contents, rs[n - 1], n - 1)
  }

  /** The interning table only grows: decoding appends to it and never
      changes or drops an entry, and it keeps each name registered once. */
  lemma {:induction false} ReplayAppendsNames(names: seq<string>, contents: map<string, Leaf>,
                                              rs: seq<SyncRecord>, n: nat)
    requires n <= |rs|
    ensures names <= ReplayPrefix(names, contents, rs, n).names
    ensures Distinct(names) ==> Distinct(ReplayPrefix(names, contents, rs, n).names)
  {
    if n > 0 {
      ReplayAppendsNames(names, contents, rs, n - 1);
      var before := ReplayPrefix(names, contents, rs, n - 1);
      if Distinct(names) {
        InternKeepsDistinct(before.names, rs[n - 1].name);
      }
    }
  }

  /** The names the records of `rs` carry. */
  function RecordNames(rs: seq<SyncRecord>): set<string> {
    set r | r in rs :: r.name
  }

  /** Decoding touches only the producers the records replayed so far name:
      every other name keeps exactly the leaf it had, or stays absent. */
  lemma {:induction false} ReplayFrame(names: seq<string>, contents: map<string, Leaf>,
                                       rs: seq<SyncRecord>, n: nat, k: string)
    requires n <= |rs| && k !in RecordNames(rs[..n])
    ensures var out := ReplayPrefix(names, contents, rs, n);
            (k in out.contents <==> k in contents) &&
            (k in contents ==> out.contents[k] == contents[k])
  {
    if n > 0 {
      assert rs[..n][n - 1] == rs[n - 1];
      assert forall j | 0 <= j < n - 1 :: rs[..n - 1][j] == rs[..n][j];
      ReplayFrame(names, contents, rs, n - 1, k);
    }
  }

  /** One more iteration of the decoding loop: if the first `i` records
      left the replay at `before` and record `i` takes it to `after`, the
      first `i + 1` records take it to `after`, and a failure there is what
      the whole message gives. */
  lemma ReplayNext(names: seq<string>, contents: map<string, Leaf>, rs: seq<SyncRecord>, i: nat,
                   before: Replay, after: Replay)
    requires i < |rs| && before.failedAt.None?
    requires ReplayPrefix(names, contents, rs, i) == before
    requires ApplyRecord(before.names, before.contents, rs[i], i) == after
    ensures ReplayPrefix(names, contents, rs, i + 1) == after
    ensures after.failedAt.Some? ==> ReplayPrefix(names, contents, rs, |rs|) == after
  {
    if after.failedAt.Some? {
      ReplayFailureIsFinal(names, contents, rs, i + 1, |rs|);
    }
  }

  /** Once a record has failed, later records change nothing. */
  lemma {:induction false} ReplayFailureIsFinal(names: seq<string>, contents: map<string, Leaf>,
                                                rs: seq<SyncRecord>, k: nat, n: nat)
    requires k <= n <= |rs|
    requires ReplayPrefix(names, contents, rs, k).failedAt.Some?
    ensures ReplayPrefix(names, contents, rs, n) == ReplayPrefix(names, contents, rs, k)
  {
    if n > k {
      ReplayFailureIsFinal(names, contents, rs, k, n - 1);
    }
  }

  /** Decoding gets through the first `n` records exactly when every UPDATE
      record among them has a seqno whose two fields convert. No record type
      is rejected. */
  lemma {:induction false} ReplaySucceedsIff(names: seq<string>, contents: map<string, Leaf>,
                                             rs: seq<SyncRecord>, n: nat)
    requires n <= |rs|
    ensures ReplayPrefix(names, contents, rs, n).failedAt.None? <==>
            forall i | 0 <= i < n && rs[i].kind == ActionType.Update :: ParseSeqNo(rs[i]).Some?
  {
    if n > 0 {
      ReplaySucceedsIff(names, contents, rs, n - 1);
      if ReplayPrefix(names, contents, rs, n - 1).failedAt.Some? {
        var j := ReplayPrefix(names, contents, rs, n - 1).failedAt.value;
        assert rs[j].kind == ActionType.Update && ParseSeqNo(rs[j]) == None;
      }
    }
  }

  /** When decoding fails at record k: the records before k were all applied
      (there is no rollback), k's name was still interned, the target is left
      as the first k records made it, and no later record is applied. */
  lemma {:induction false} ReplayStopsAtFailure(names: seq<string>, contents: map<string, Leaf>, rs: seq<SyncRecord>)
    requires ReplayPrefix(names, contents, rs, |rs|).failedAt.Some?
    ensures var out := ReplayPrefix(names, contents, rs, |rs|);
            var k := out.failedAt.value;
            var before := ReplayPrefix(names, contents, rs, k);
            k < |rs| &&
            before.failedAt.None? &&
            out.contents == before.contents &&
            out.names == Intern(before.names, rs[k].name).names &&
            out == ReplayPrefix(names, contents, rs, k + 1)
  {
    var out := ReplayPrefix(names, contents, rs, |rs|);
    var k := out.failedAt.value;
    var before := ReplayPrefix(names, contents, rs, k);
    if before.failedAt.Some? {
      ReplayFailureIsFinal(names, contents, rs, k, |rs|);
      assert false;
    }
    ReplayFailureIsFinal(names, contents, rs, k + 1, |rs|);
  }

  /** A DELETE record replayed twice does what it does once. */
  lemma DeleteTwiceIsOnce(names: seq<string>, contents: map<string, Leaf>, r: SyncRecord)
    requires r.kind != ActionType.Update
    ensures ReplayPrefix(names, contents, [r, r], 2) == ReplayPrefix(names, contents, [r], 1)
  {
    var once := Intern(names, r.name);
    InternStable(names, r.name, []);
    assert once.names + [] == once.names;
    assert ReplayPrefix(names, contents, [r, r], 0) == ReplayPrefix(names, contents, [r], 0) == Replay(names, contents, None);
    assert ApplyRecord(names, contents, r, 0) == Replay(once.names, contents - {r.name}, None);
    assert ReplayPrefix(names, contents, [r, r], 1) == ReplayPrefix(names, contents, [r], 1) == Replay(once.names, contents - {r.name}, None);
    assert ApplyRecord(once.names, contents - {r.name}, r, 1) == Replay(once.names, contents - {r.name} - {r.name}, None);
    assert contents - {r.name} - {r.name} == contents - {r.name};
  }

  // ---------------------------------------------------------------------
  // Round trip
  // ---------------------------------------------------------------------

  /** What decoding a leaf's record should do to a target, read off the
      leaf itself: a deletion removes its name, anything else stores it as a
      plain leaf. */
  function ApplyLeaf(contents: map<string, Leaf>, leaf: Leaf): map<string, Leaf> {
    if leaf.op.Some? && leaf.op.value != Operation.Update then contents - {leaf.info.name}
    else contents[leaf.info.name := Leaf(leaf.info, leaf.seqNo, leaf.wireData, None)]
  }

  /** The leaves applied one after another, in traversal order. */
  function ApplyLeaves(contents: map<string, Leaf>, ls: seq<Leaf>): map<string, Leaf> {
    if ls == [] then contents else ApplyLeaf(ApplyLeaves(contents, ls[..|ls| - 1]), ls[|ls| - 1])
  }

  /** Decoding the encoding of a traversal whose names are registered in the
      table never fails, leaves the table as it was, and applies each leaf in
      traversal order: an UPDATE with the leaf's own handle, seqno and wire
      data, a DELETE as a removal. */
  lemma {:induction false} EncodeDecodeRoundTrip(names: seq<string>, contents: map<string, Leaf>,
                                                 ls: seq<Leaf>, n: nat)
    requires n <= |ls| && Distinct(names)
    requires forall i | 0 <= i < |ls| :: Registered(names, ls[i].info)
    ensures ReplayPrefix(names, contents, EncodeAll(ls), n) == Replay(names, ApplyLeaves(contents, ls[..n]), None)
  {
    if n > 0 {
      EncodeDecodeRoundTrip(names, contents, ls, n - 1);
      var leaf := ls[n - 1];
      var r := EncodeAll(ls)[n - 1];
      assert r == EncodeLeaf(leaf);
      InternRegistered(names, leaf.info);
      assert ls[..n][..n - 1] == ls[..n - 1];
      if r.kind == ActionType.Update {
        assert ParseSeqNo(r) == Some(leaf.seqNo);
      }
    }
  }

  /** Two leaves agree on everything but the handle number: the same
      printed name, seqno, wire data and kind. */
  predicate SameUpToHandle(x: Leaf, y: Leaf) {
    x.info.name == y.info.name && x.seqNo == y.seqNo && x.wireData == y.wireData && x.op == y.op
  }

  /** Decoding the record of one leaf, for one name `k`: if the replay so
      far agrees at `k` with the expected target up to the handle, the record
      does not fail, the table only grows and stays duplicate-free, the
      agreement carries over to the leaf applied to the expected target, the
      leaf's own name gets the table's handle, and any other name keeps its
      leaf. */
  lemma DecodeEncodedLeaf(before: Replay, expected: map<string, Leaf>, leaf: Leaf, i: nat, k: string)
    requires before.failedAt.None? && Distinct(before.names)
    requires k in before.contents <==> k in expected
    requires k in before.contents ==> SameUpToHandle(before.contents[k], expected[k])
    ensures var out := ApplyRecord(before.names, before.contents, EncodeLeaf(leaf), i);
            var next := ApplyLeaf(expected, leaf);
            out.failedAt.None? && before.names <= out.names && Distinct(out.names) &&
            (k in out.contents <==> k in next) &&
            (k in out.contents ==> SameUpToHandle(out.contents[k], next[k])) &&
            (k in out.contents && k == leaf.info.name ==> Registered(out.names, out.contents[k].info)) &&
            (k in out.contents && k != leaf.info.name ==> out.contents[k] == before.contents[k])
  {
    var r := EncodeLeaf(leaf);
    InternSpec(before.names, r.name);
    InternKeepsDistinct(before.names, r.name);
    if r.kind == ActionType.Update {
      assert ParseSeqNo(r) == Some(leaf.seqNo);
    }
  }

  /** The round trip into a table that may not know the producers yet, as at
      a peer that learns of them from the message, stated for one name `k`:
      decoding never fails, only appends to the table and keeps it
      duplicate-free, and leaves `k` where applying the leaves in traversal
      order would, up to the handle; a leaf it stores for a name of the
      traversal carries the table's own handle for that name. */
  lemma {:induction false} EncodeDecodeAnyTable(names: seq<string>, contents: map<string, Leaf>,
                                                ls: seq<Leaf>, n: nat, k: string)
    requires n <= |ls| && Distinct(names)
    ensures var out := ReplayPrefix(names, contents, EncodeAll(ls), n);
            var expected := ApplyLeaves(contents, ls[..n]);
            out.failedAt.None? && names <= out.names && Distinct(out.names) &&
            (k in out.contents <==> k in expected) &&
            (k in out.contents ==> SameUpToHandle(out.contents[k], expected[k])) &&
            (k in out.contents && (exists i | 0 <= i < n :: ls[i].info.name == k) ==>
               Registered(out.names, out.contents[k].info))
  {
    if n > 0 {
      EncodeDecodeAnyTable(names, contents, ls, n - 1, k);
      var before := ReplayPrefix(names, contents, EncodeAll(ls), n - 1);
      var leaf := ls[n - 1];
      assert EncodeAll(ls)[n - 1] == EncodeLeaf(leaf);
      assert ls[..n][..n - 1] == ls[..n - 1];
      DecodeEncodedLeaf(before, ApplyLeaves(contents, ls[..n - 1]), leaf, n - 1, k);
      var out := ReplayPrefix(names, contents, EncodeAll(ls), n);
      assert out == ApplyRecord(before.names, before.contents, EncodeLeaf(leaf), n - 1);
      if k != leaf.info.name && k in out.contents && (exists i | 0 <= i < n :: ls[i].info.name == k) {
        assert exists i | 0 <= i < n - 1 :: ls[i].info.name == k;
        RegisteredGrows(before.names, out.names, before.contents[k].info);
      }
    }
  }

  /** Applying a sorted traversal of plain leaves overlays its map. */
  lemma {:induction false} ApplyPlainLeaves(contents: map<string, Leaf>, ls: seq<Leaf>)
    requires Sorted(ls)
    requires forall i | 0 <= i < |ls| :: ls[i].op.None?
    ensures ApplyLeaves(contents, ls) == contents + ToMap(ls)
  {
    if ls != [] {
      var k := |ls| - 1;
      var prefix := ls[..k];
      var last := ls[k];
      SortedPrefix(ls, k);
      assert forall i | 0 <= i < |prefix| :: prefix[i] == ls[i];
      ApplyPlainLeaves(contents, prefix);
      ToMapLast(ls);
      assert Leaf(last.info, last.seqNo, last.wireData, None) == last;
      assert ApplyLeaves(contents, ls) == ApplyLeaves(contents, prefix)[last.info.name := last];
      OverlayUpdate(contents, ToMap(prefix), last.info.name, last);
    }
  }

  /** Overlaying a map with one more entry is overlaying it, then adding the entry. */
  lemma OverlayUpdate(a: map<string, Leaf>, b: map<string, Leaf>, key: string, v: Leaf)
    ensures a + b[key := v] == (a + b)[key := v]
  {
  }

  /** The round trip of a State of plain leaves into any target, with a
      table of any content: no record fails, the table only grows and stays
      duplicate-free, every producer of the State ends up under its own name
      with its original seqno and wire data and the table's handle for that
      name, and every other name of the target is left as it was up to the
      handle. */
  lemma StateRoundTrip(names: seq<string>, target: map<string, Leaf>, ls: seq<Leaf>)
    requires Distinct(names) && Sorted(ls)
    requires forall i | 0 <= i < |ls| :: ls[i].op.None?
    ensures var out := ReplayPrefix(names, target, EncodeAll(ls), |ls|);
            out.failedAt.None? && names <= out.names && Distinct(out.names) &&
            (forall i | 0 <= i < |ls| ::
               ls[i].info.name in out.contents &&
               out.contents[ls[i].info.name].info.name == ls[i].info.name &&
               Registered(out.names, out.contents[ls[i].info.name].info) &&
               out.contents[ls[i].info.name].seqNo == ls[i].seqNo &&
               out.contents[ls[i].info.name].wireData == ls[i].wireData &&
               out.contents[ls[i].info.name].op.None?) &&
            (forall k | k !in ToMap(ls) ::
               (k in out.contents <==> k in target) &&
               (k in target ==> SameUpToHandle(out.contents[k], target[k])))
  {
    var out := ReplayPrefix(names, target, EncodeAll(ls), |ls|);
    assert ls[..|ls|] == ls;
    ApplyPlainLeaves(target, ls);
    EncodeDecodeAnyTable(names, target, ls, |ls|, "");
    forall i | 0 <= i < |ls|
      ensures ls[i].info.name in out.contents &&
              out.contents[ls[i].info.name].info.name == ls[i].info.name &&
              Registered(out.names, out.contents[ls[i].info.name].info) &&
              out.contents[ls[i].info.name].seqNo == ls[i].seqNo &&
              out.contents[ls[i].info.name].wireData == ls[i].wireData &&
              out.contents[ls[i].info.name].op.None?
    {
      ToMapAt(ls, i);
      EncodeDecodeAnyTable(names, target, ls, |ls|, ls[i].info.name);
    }
    forall k | k !in ToMap(ls)
      ensures (k in out.contents <==> k in target) &&
              (k in target ==> SameUpToHandle(out.contents[k], target[k]))
    {
      EncodeDecodeAnyTable(names, target, ls, |ls|, k);
    }
  }

  /** The same-process round trip of a State of plain leaves, where the
      table already registers every producer: decoding overlays the State's
      content on the target exactly, handles included, and leaves the table
      as it was. */
  lemma SameProcessStateRoundTrip(names: seq<string>, target: map<string, Leaf>, ls: seq<Leaf>)
    requires Distinct(names) && Sorted(ls)
    requires forall i | 0 <= i < |ls| :: Registered(names, ls[i].info) && ls[i].op.None?
    ensures var out := ReplayPrefix(names, target, EncodeAll(ls), |ls|);
            out.failedAt.None? && out.names == names &&
            out.contents == target + ToMap(ls) &&
            forall i | 0 <= i < |ls| :: ls[i].info.name in out.contents && out.contents[ls[i].info.name] == ls[i]
  {
    EncodeDecodeRoundTrip(names, target, ls, |ls|);
    assert ls[..|ls|] == ls;
    ApplyPlainLeaves(target, ls);
    forall i | 0 <= i < |ls|
      ensures ls[i].info.name in target + ToMap(ls) && (target + ToMap(ls))[ls[i].info.name] == ls[i]
    {
      ToMapAt(ls, i);
    }
  }

  // ---------------------------------------------------------------------
  // Concrete messages
  // ---------------------------------------------------------------------

  /** An UPDATE record whose seq field is not numeric stops decoding at that
      record, leaving the target as it was; the record's name is interned all
      the same. */
  lemma MalformedSeqNo(names: seq<string>, contents: map<string, Leaf>)
    ensures var rs := [SyncRecord(ActionType.Update, "P1", "", Some(WireSeqNo("1", "abc")))];
            ReplayPrefix(names, contents, rs, 1) == Replay(Intern(names, "P1").names, contents, Some(0))
  {
    assert !IsDigit("abc"[0]);
  }

  /** Decoding is not atomic: when the third record is malformed, the first
      two have already been applied to the target. */
  lemma ThirdRecordMalformed()
    ensures var rs := [SyncRecord(ActionType.Update, "P1", "x", Some(WireSeqNo("1", "5"))),
                       SyncRecord(ActionType.Update, "P2", "y", Some(WireSeqNo("2", "1"))),
                       SyncRecord(ActionType.Update, "P3", "z", Some(WireSeqNo("1", "")))];
            var out := ReplayPrefix([], map[], rs, 3);
            out.failedAt == Some(2) && out.names == ["P1", "P2", "P3"] &&
            out.contents == map["P1" := Leaf(NameInfo(0, "P1"), SeqNo(1, 5), "x", None),
                                "P2" := Leaf(NameInfo(1, "P2"), SeqNo(2, 1), "y", None)]
  {
    var rs := [SyncRecord(ActionType.Update, "P1", "x", Some(WireSeqNo("1", "5"))),
               SyncRecord(ActionType.Update, "P2", "y", Some(WireSeqNo("2", "1"))),
               SyncRecord(ActionType.Update, "P3", "z", Some(WireSeqNo("1", "")))];
    var m1 := map["P1" := Leaf(NameInfo(0, "P1"), SeqNo(1, 5), "x", None)];
    var m2 := m1["P2" := Leaf(NameInfo(1, "P2"), SeqNo(2, 1), "y", None)];
    assert DigitsValue("5") == 5 && DigitsValue("2") == 2 && DigitsValue("1") == 1;
    assert ParseSeqNo(rs[0]) == Some(SeqNo(1, 5));
    assert ParseSeqNo(rs[1]) == Some(SeqNo(2, 1));
    assert ParseSeqNo(rs[2]) == None;
    assert Intern([], "P1") == Interned(["P1"], NameInfo(0, "P1"));
    assert Intern(["P1"], "P2") == Interned(["P1", "P2"], NameInfo(1, "P2"));
    assert Intern(["P1", "P2"], "P3").names == ["P1", "P2", "P3"];
    assert ReplayPrefix([], map[], rs, 1) == Replay(["P1"], m1, None);
    assert ReplayPrefix([], map[], rs, 2) == Replay(["P1", "P2"], m2, None);
  }

  /** The body of the decoding loop for record `r` at index `i`: interns
      the name, then either converts the seqno and calls `update`, or calls
      `remove`. Returns false when a conversion fails, before the target
      is touched. */
  method DecodeRecord(r: SyncRecord, i: nat, state: State, table: NameTable) returns (ok: bool)
    requires state.Valid() && table.Valid()
    modifies state, table
    ensures state.Valid() && table.Valid()
    ensures ApplyRecord(old(table.names), old(state.Contents()), r, i)
            == Replay(table.names, state.Contents(), if ok then None else Some(i))
  {
    var info := table.FindOrCreate(r.name);
    if r.kind == ActionType.Update {
      var text := SeqNoText(r);
      var session := ParseU32(text.session);
      if session.None? {
        return false;
      }
      var number := ParseU32(text.number);
      if number.None? {
        return false;
      }
      state.Update(info, SeqNo(session.value, number.value), r.wireData);
    } else {
      state.Remove(info);
    }
    ok := true;
  }

  /** `operator>>`: replays the records of `msg` against `state`, interning
      each record's name in `table`. A seqno field that does not convert to
      a 32-bit unsigned integer aborts the decoding at that record; the
      records before it stay applied. */
  method Decode(msg: StateMsg, state: State, table: NameTable) returns (failedAt: Option<nat>)
    requires state.Valid() && table.Valid()
    modifies state, table
    ensures state.Valid() && table.Valid()
    ensures ReplayPrefix(old(table.names), old(state.Contents()), msg.records, |msg.records|)
            == Replay(table.names, state.Contents(), failedAt)
  {
    ghost var names0, contents0 := table.names, state.Contents();
    var n := |msg.records|;
    var i := 0;
    while i < n
      invariant 0 <= i <= n
      invariant state.Valid() && table.Valid()
      invariant ReplayPrefix(names0, contents0, msg.records, i) == Replay(table.names, state.Contents(), None)
    {
      ghost var before := Replay(table.names, state.Contents(), None);
      var ok := DecodeRecord(msg.records[i], i, state, table);
      ghost var after := Replay(table.names, state.Contents(), if ok then None else Some(i));
      ReplayNext(names0, contents0, msg.records, i, before, after);
      if !ok {
        failedAt := Some(i);
        return;
      }
      i := i + 1;
    }
    failedAt := None;
  }
}
