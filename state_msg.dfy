/** The SyncStateMsg message: an ordered list of SyncState records. Its
    binary encoding is not modelled; a message is its sequence of records. */
module Messages {
  import opened SyncTypes

  /** The record's action type. */
  datatype ActionType = Update | Delete | Other

  /** The seqno sub-record: session and sequence number as decimal text. */
  datatype WireSeqNo = WireSeqNo(session: string, number: string)

  /** One SyncState record; `seqno == None` when the sub-record is not set. */
  datatype SyncRecord = SyncRecord(kind: ActionType, name: string, wireData: string, seqno: Option<WireSeqNo>)

  class StateMsg {
    var records: seq<SyncRecord>

    constructor ()
      ensures records == []
    {
      records := [];
    }

    /** Appends a record after the existing ones (`add_ss`). */
    method AddRecord(r: SyncRecord)
      modifies this
      ensures records == old(records) + [r]
    {
      records := records + [r];
    }
  }
}
