/** Value types shared by the state-synchronisation core: sequence numbers,
    producer identities, leaves, and the Option wrapper used for absent
    sub-records and failed parses. */
module SyncTypes {

  datatype Option<+T> = None | Some(value: T)

  /** Exclusive upper bound of an unsigned 32-bit integer. */
  const U32_LIMIT: int := 0x1_0000_0000

  type u32 = x: int | 0 <= x < U32_LIMIT

  /** A producer's version marker: its session and its sequence number within that session. */
  datatype SeqNo = SeqNo(session: u32, number: u32)

  /** The operation a DiffLeaf carries. */
  datatype Operation = Update | Remove

  /** An interned producer identity: the handle the interning table handed
      out, and the name it was interned for (which is what it prints as). */
  datatype NameInfo = NameInfo(id: nat, name: string)

  /** A leaf of a State. `op == None` is a plain Leaf; `op == Some(o)` is a
      DiffLeaf whose operation is `o`. This tag replaces the run-time downcast
      from Leaf to DiffLeaf. */
  datatype Leaf = Leaf(info: NameInfo, seqNo: SeqNo, wireData: string, op: Option<Operation>)
}
