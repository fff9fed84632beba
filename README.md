# ChronoSync state-message codec

A Dafny model of the state-message codec of ChronoSync's synchronisation
core (`src/sync-state.cc`). The codec has two halves:

- **`operator<<`** walks a State's leaves in the order of its `ordered` index
  and appends one `SyncState` record per leaf to a `SyncStateMsg`. A record
  carries an action type (UPDATE or DELETE), the producer's name as text,
  the leaf's wire data, and, for UPDATE only, a `seqno` sub-record with the
  leaf's session and sequence number.
- **`operator>>`** goes through a message's records by index. For each one it
  interns the name with `StdNameInfo::FindOrCreate`. An UPDATE record then
  has its two seqno fields converted to unsigned 32-bit integers and becomes
  `state.update(info, SeqNo(session, seq), wiredata)`. Any other record
  becomes `state.remove(info)`. A failed conversion throws, which ends the
  decoding at that record; records already applied stay applied.

Files and modules:

| file | module | contents |
|---|---|---|
| `sync_types.dfy` | `SyncTypes` | `SeqNo`, `NameInfo` (handle plus name), `Leaf` with an optional `Operation` (a plain Leaf or a DiffLeaf), `u32` |
| `decimal.dfy` | `Decimal` | decimal text of a `u32` and the partial text-to-`u32` conversion |
| `interning.dfy` | `Interning` | the append-only interning table behind `FindOrCreate`, as the class `NameTable` and the function `Intern` |
| `state_store.dfy` | `StateStore` | the class `State`: leaves kept in ascending byte-wise name order, their name-to-leaf map, and `Update`/`Remove` |
| `state_msg.dfy` | `Messages` | `SyncRecord` and the class `StateMsg` (a message is its sequence of records) |
| `state_codec.dfy` | `StateCodec` | the encoder and decoder as methods, the functions that specify them, and the lemmas |

The encoder is the method `Encode`. Its postcondition ties the new message
to `EncodeAll` of the State's traversal. The decoder is the method `Decode`.
Its postcondition ties the new table, the new State content and the failure
index to `ReplayPrefix`, a function of the old table, the old content and
the records. The properties are proved as lemmas about these two functions.

## Model

| member | source | states |
|---|---|---|
| `StateCodec.Encode` | src/sync-state.cc:42-74 | appends exactly the records of `EncodeAll(traversal)` after the records the message already held, and leaves the State unchanged |
| `StateCodec.EncodeAll` | src/sync-state.cc:45-72 | one record per leaf, same count, record i is the encoding of leaf i (traversal order kept) |
| `StateCodec.EncodeLeaf` | src/sync-state.cc:47-71 | type is DELETE iff the leaf is a DiffLeaf whose operation is not UPDATE, never OTHER; the seqno sub-record is present iff the type is UPDATE, and its two fields convert back to the leaf's session and sequence number; name is the NameInfo's printed form and wire data is copied verbatim |
| `Messages.StateMsg.AddRecord` | src/sync-state.cc:47 | `add_ss` appends one record after the existing ones |
| `Decimal.ToDecimal` | src/sync-state.cc:68-70 | the seqno text of a number is a non-empty digit string, without leading zeros, that denotes exactly that number |
| `Decimal.ParseOfDecimal` | src/sync-state.cc:87-88 | converting the decimal text of a 32-bit value gives that value back |
| `Decimal.ParseRejectsNonNumeric` | src/sync-state.cc:87-88 | the conversion fails on empty text and on text with a non-digit character |
| `Decimal.ParseOverflow` | src/sync-state.cc:87-88 | the conversion fails on a value of 2^32 or more instead of truncating it |
| `Decimal.ParseU32` | src/sync-state.cc:87-88 | `lexical_cast<uint32_t>` of a seqno field: a value only for non-empty all-digit text denoting less than 2^32; its lemmas `ParseOfDecimal`, `ParseRejectsNonNumeric` and `ParseOverflow` state its inverse and its failures |
| `Interning.NameTable.FindOrCreate` | src/sync-state.cc:84 | the new table and the returned handle are exactly `Intern` of the old table and the name; the table stays duplicate-free and indexed |
| `Interning.Intern` | src/sync-state.cc:84 | `FindOrCreate` on a table: the registered handle of the name, or a new handle at the end of the table; its lemmas `InternSpec`, `InternRegistered`, `InternStable` and `InternKeepsDistinct` state growth, reuse, stability and duplicate-freedom |
| `Interning.InternSpec` | src/sync-state.cc:84 | the table only grows, by at most the name looked up; the handle is that name's first registration |
| `Interning.InternRegistered` | src/sync-state.cc:84 | looking up an already registered handle's name returns that very handle and adds nothing |
| `Interning.InternStable` | src/sync-state.cc:84 | equal names resolve to the identical handle, whatever was interned in between |
| `Interning.InternKeepsDistinct` | src/sync-state.cc:84 | interning never registers a name twice |
| `StateStore.State.Update` | src/sync-state.cc:91 | stores the triple as the plain leaf of that name, replacing any previous one, keeping name order |
| `StateStore.State.Remove` | src/sync-state.cc:96 | deletes the name's leaf if present, otherwise changes nothing |
| `StateCodec.DecodeRecord` | src/sync-state.cc:83-97 | one loop iteration: interns the name, then either converts and updates, or removes; its effect is exactly `ApplyRecord` |
| `StateCodec.Decode` | src/sync-state.cc:77-100 | the new table, the new State content and the failure index are exactly `ReplayPrefix` over all records of the old table and content |
| `StateCodec.SeqNoText` | src/sync-state.cc:87-88 | the seqno sub-record as `ss.seqno()` reads it: its two fields, or two empty fields when the record carries none |
| `StateCodec.ParseSeqNo` | src/sync-state.cc:87-88 | both fields of the seqno sub-record converted, or nothing when either conversion fails |
| `StateCodec.MissingSeqNoFails` | src/sync-state.cc:85-88 | an UPDATE record with no seqno sub-record stops decoding at that record, with its name interned and the target unchanged |
| `StateCodec.ApplyRecord` | src/sync-state.cc:83-97 | one loop iteration: intern the name, then for UPDATE either fail at that index (target unchanged) or store the converted leaf under the name, and for any other type remove the name; `DecodeRecord` is proved equal to it |
| `StateCodec.ReplayPrefix` | src/sync-state.cc:80-98 | a reported failure names an UPDATE record, among those replayed, whose seqno does not convert |
| `StateCodec.ReplayNext` | src/sync-state.cc:81-98 | the first i+1 records do what record i does after the first i; a failure there is the whole message's outcome |
| `StateCodec.ReplaySucceedsIff` | src/sync-state.cc:85-97 | decoding gets through a prefix iff every UPDATE record in it has convertible seqno fields; no record type is rejected |
| `StateCodec.ReplayFailureIsFinal` | src/sync-state.cc:87-88 | after a failure, further records change neither the table nor the content |
| `StateCodec.ReplayStopsAtFailure` | src/sync-state.cc:81-98 | on failure at record k: records 0..k-1 were applied with no rollback, k's name was still interned, the content is what records 0..k-1 left, and nothing after k is applied |
| `StateCodec.ReplayAppendsNames` | src/sync-state.cc:84 | decoding only appends to the interning table and keeps it duplicate-free |
| `StateCodec.ReplayFrame` | src/sync-state.cc:80-98 | producers that no record among those replayed names keep exactly their leaf, or stay absent |
| `StateCodec.DeleteTwiceIsOnce` | src/sync-state.cc:94-97 | a DELETE (or any non-UPDATE) record applied twice has the effect of applying it once |
| `StateCodec.EncodeDecodeRoundTrip` | src/sync-state.cc:42-100 | decoding the encoding of leaves whose handles are registered never fails, leaves the table as it was, and applies each leaf in order: an update with its own handle, seqno and wire data, or a removal for a deletion |
| `StateCodec.DecodeEncodedLeaf` | src/sync-state.cc:83-97 | decoding the record of one leaf never fails, only grows the table and keeps it duplicate-free, stores the leaf's name with the leaf's seqno and wire data under the table's own handle (or removes it for a deletion), and touches no other name |
| `StateCodec.EncodeDecodeAnyTable` | src/sync-state.cc:42-100 | with a table of any content, including one that meets the producers for the first time: decoding the encoding of leaves never fails, only appends to the table and keeps it duplicate-free, and leaves each name where applying the leaves in order would, up to the handle; each stored leaf of the traversal carries the table's handle for its name |
| `StateCodec.StateRoundTrip` | src/sync-state.cc:42-100 | with a table of any content: decoding the encoding of a State of plain leaves never fails, every producer of the State ends up under its name with its original seqno and wire data and the table's handle for that name, and every other name of the target stays as it was up to the handle |
| `StateCodec.SameProcessStateRoundTrip` | src/sync-state.cc:42-100 | when the table already registers every producer: decoding overlays the State's content on the target exactly, handles included, and leaves the table unchanged |
| `StateCodec.MalformedSeqNo` | src/sync-state.cc:84-88 | a record with seq field "abc" stops decoding at that record, leaves the target unchanged, and still interns the name |
| `StateCodec.ThirdRecordMalformed` | src/sync-state.cc:80-98 | when the third record is malformed, the first two are already in the target: decoding is not atomic |

## Decoding behaviour of the code

- Decoding is not atomic: `src/sync-state.cc:80-98` applies each record to
  the target as it goes, and a failed conversion leaves the earlier records
  applied. `ReplayStopsAtFailure` and `ThirdRecordMalformed` state this.
- No record type is rejected: `src/sync-state.cc:94-97` turns every
  non-UPDATE record into a removal.
- No check that a SeqNo is newer appears in `src/sync-state.cc`, and the
  State's own source is not part of this model, so `State.Update` stores
  unconditionally.

## Left out

- `ns3/sync-ccnx-wrapper.h` (the ndnSIM transport application, its Interest and Data callbacks, its random nonce and its prefix filters) is not part of this model: it is transport plumbing with no bearing on the codec.
- The protobuf binary encoding of `SyncStateMsg` is a foreign library and its schema is not part of this model; a message is its sequence of records.
- The seqno sub-record's fields are modelled as decimal text. The protobuf schema that fixes their type is not part of this model. The encoder at `src/sync-state.cc:69-70` passes the u32 values of `getSession()` and `getSeq()` straight to `set_session`/`set_seq`, so that schema probably declares numeric fields.
- Under the numeric reading, the conversions at `src/sync-state.cc:87-88` turn a u32 into a u32 and never fail, and an UPDATE record with no seqno sub-record decodes as `SeqNo(0, 0)` and is applied. The model does not capture that reading. Its failure path exists only under the text reading: the failure case of `ReplayPrefix`, `ReplayStopsAtFailure`, `MalformedSeqNo` and `ThirdRecordMalformed`, and the failure of an UPDATE record with no seqno sub-record (`SeqNoText` reads it as two empty fields; `MissingSeqNoFails`).
- The action type is modelled as UPDATE, DELETE and OTHER, assuming the protobuf enum has a third value; the decoder treats any non-UPDATE value as DELETE, so this choice changes no result.
- `State`, `DiffLeaf`, `StdNameInfo` and `SeqNo` are not part of this model beyond minimal contracts. `Update` stores the triple, `Remove` deletes the name if present, and interning is append-only and stable. The traversal order is byte-wise name order. `update`'s return value is not modelled, and neither is a State of DiffLeaves changing under `update`/`remove`.
- Handle identity is modelled as equality of the interned `NameInfo` value (its table position and name), not pointer identity; the printed form of a `NameInfo` is its name.
- The text conversion of `boost::lexical_cast` is abstracted to "succeeds with a u32 or fails": its treatment of a leading sign and other text quirks is not modelled.
- The exception thrown on a failed conversion is modelled as the index of the failing record returned by `Decode`; the exception object and its propagation through callers are not modelled.
- `lexical_cast<std::string>` of the wire data is the identity and is modelled as a plain copy.
- Serialised access to a State by a single owner is assumed; concurrency is not modelled.
