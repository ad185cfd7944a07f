/** The pieces of the binary-API common layer the handlers rely on: the
    bounds-checked lookup in the per-message data table, and the extent of
    a message buffer (header plus payload) that the address sanitizer
    poisons and unpoisons. */
module ApiCommon {
  import opened ByteOrder

  datatype Option<T> = None | Some(value: T)

  /** vl_api_get_msg_data: the table entry for msg_id, or nothing (the C
      null pointer) when the id lies past the end of the table. The lookup
      is a pure function of the table, so the table is left as it was. */
  function GetMsgData<T>(msgData: seq<T>, msgId: u32): (r: Option<T>)
    ensures r.None? <==> msgId >= |msgData|
    ensures r.Some? ==> r.value == msgData[msgId]
  {
    if msgId >= |msgData| then None else Some(msgData[msgId])
  }

  /** Entries registered later (a table only grows at the end) do not change
      what an earlier lookup finds. */
  lemma GetMsgDataStableUnderGrowth<T>(msgData: seq<T>, more: seq<T>, msgId: u32)
    requires GetMsgData(msgData, msgId).Some?
    ensures GetMsgData(msgData + more, msgId) == GetMsgData(msgData, msgId)
  {
  }

  /** Every id below the table length finds its entry, and the first id at
      or past the end finds nothing. */
  lemma GetMsgDataCoversTable<T>(msgData: seq<T>, e: T)
    requires |msgData| < 0xFFFF_FFFF
    ensures GetMsgData(msgData + [e], |msgData|) == Some(e)
    ensures GetMsgData(msgData, |msgData|) == None
  {
  }

  /** Width of a pointer on the 64-bit targets the model assumes. */
  const PointerSize: nat := 8

  /** sizeof (msgbuf_t): the queue pointer, data_len and gc_mark_timestamp;
      the zero-length data array adds nothing. */
  const MsgBufHeaderSize: nat := PointerSize + 4 + 4

  /** The message header. data_len is stored in network order and does not
      include the header itself. */
  datatype MsgBuf = MsgBuf(queue: nat, dataLen: u32, gcMarkTimestamp: u32)

  /** A byte range of memory. */
  datatype Region = Region(start: int, len: nat)

  /** The header of the message whose payload begins at `payload`: the
      msgbuf_t element just before it. */
  function HeaderAddress(payload: int): int
  {
    payload - MsgBufHeaderSize
  }

  /** The range VL_MSG_API_POISON and VL_MSG_API_UNPOISON both hand to the
      sanitizer for the message whose payload begins at `payload`: its
      header and the data_len payload bytes after it. */
  function MsgRegion(h: Host, payload: int, m: MsgBuf): (r: Region)
    ensures r.start + MsgBufHeaderSize == payload
    ensures r.start + r.len == payload + Ntohl(h, m.dataLen)
  {
    Region(HeaderAddress(payload), MsgBufHeaderSize + Ntohl(h, m.dataLen))
  }

  /** A buffer whose data_len was written as htonl (n) is covered for
      exactly its header and n payload bytes. */
  lemma MsgRegionCoversPayload(h: Host, payload: int, q: nat, n: u32, ts: u32)
    ensures MsgRegion(h, payload, MsgBuf(q, Htonl(h, n), ts))
         == Region(payload - MsgBufHeaderSize, MsgBufHeaderSize + n)
  {
    NtohlHtonl(h, n);
  }
}
