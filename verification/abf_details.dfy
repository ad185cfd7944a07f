/** Encoding of the detail messages a dump streams: the variable-length
    policy details (a header followed by one path record per path of the
    policy's path list) and the fixed-size interface-attachment details. */
module AbfDetails {
  import opened ByteOrder
  import opened AbfTypes
  import AbfCommands

  /** A path record as the zero-filled allocation holds it before anything
      is written over it. */
  function ZeroRecord(c: Config): WirePath
  {
    WirePath(seq(c.pathRecordSize, _ => 0))
  }

  /** Writes `records` over `slots` from the first slot on. Records beyond
      the last slot do not land in the buffer. */
  function WriteRecords(slots: seq<WirePath>, records: seq<WirePath>): (r: seq<WirePath>)
    ensures |r| == |slots|
    ensures forall i :: 0 <= i < |slots| && i < |records| ==> r[i] == records[i]
    ensures forall i :: |records| <= i < |slots| ==> r[i] == slots[i]
  {
    if |slots| == 0 then []
    else if |records| == 0 then slots
    else [records[0]] + WriteRecords(slots[1..], records[1..])
  }

  /** fib_api_path_encode applied to each route path, in walk order. */
  function EncodeAll(encode: RoutePath -> WirePath, paths: seq<RoutePath>): (ws: seq<WirePath>)
    ensures |ws| == |paths|
    ensures forall i :: 0 <= i < |paths| ==> ws[i] == encode(paths[i])
  {
    seq(|paths|, i requires 0 <= i < |paths| => encode(paths[i]))
  }

  /** A built details message together with the number of path records
      the encoding loop wrote past the end of the allocation. */
  datatype DetailsBuffer = DetailsBuffer(msg: Msg, overrun: nat)

  /** n path-record slots of the zero-filled allocation. */
  function ZeroSlots(c: Config, n: nat): (slots: seq<WirePath>)
    ensures |slots| == n
  {
    seq(n, _ => ZeroRecord(c))
  }

  /** The policy details message for policy `ap` with count n and the
      given path-record area: the message id, the dump's context, the
      allocation size of header plus n records, and the policy id and ACL
      index in network order. */
  function PolicyDetailsMsg(c: Config, context: u32, ap: Policy, n: u8, paths: seq<WirePath>): (m: Msg)
    ensures m.PolicyDetails? && m.context == context && m.nPaths == n && m.paths == paths
    ensures m.size == c.policyDetailsSize + c.pathRecordSize * n
    ensures Ntohs(c.host, m.msgId) == (c.ids.policyDetails + c.baseMsgId) % 0x1_0000
    ensures Ntohl(c.host, m.policyId) == ap.id
    ensures Ntohl(c.host, m.aclIndex) == ap.acl
  {
    NtohlHtonl(c.host, ap.id);
    NtohlHtonl(c.host, ap.acl);
    PolicyDetails(
      WireMsgId(c, c.ids.policyDetails), context,
      c.policyDetailsSize + c.pathRecordSize * n,
      Htonl(c.host, ap.id), Htonl(c.host, ap.acl), n, paths)
  }

  /** abf_policy_send_details as the source writes it. The path-list count
      (a u32) is stored in the u8 n_paths, so the allocation is sized for
      the count modulo 256, while the loop over the walked paths writes one
      record per path. */
  function PolicyDetailsAsWritten(c: Config, encode: RoutePath -> WirePath, context: u32, ap: Policy): (b: DetailsBuffer)
    ensures b.msg.PolicyDetails?
    ensures b.msg.nPaths == |ap.pathList| % 0x100
    ensures b.msg.size == c.policyDetailsSize + c.pathRecordSize * b.msg.nPaths
    ensures |b.msg.paths| == b.msg.nPaths
    ensures b.overrun + b.msg.nPaths == |ap.pathList|
  {
    var n: u8 := |ap.pathList| % 0x100;
    var records := EncodeAll(encode, ap.pathList);
    var paths := WriteRecords(ZeroSlots(c, n), records);
    DetailsBuffer(PolicyDetailsMsg(c, context, ap, n, paths), |records| - n)
  }

  /** With fewer than 256 paths the source's message is the intended one:
      exactly one record per path, in walk order, a count equal to the
      path-list length, an allocation of header plus that many records, and
      nothing written outside it. */
  lemma PolicyDetailsAsWrittenBelow256(c: Config, encode: RoutePath -> WirePath, context: u32, ap: Policy)
    requires |ap.pathList| < 0x100
    ensures var b := PolicyDetailsAsWritten(c, encode, context, ap);
            && b.overrun == 0
            && b.msg.nPaths == |ap.pathList|
            && b.msg.size == c.policyDetailsSize + c.pathRecordSize * |ap.pathList|
            && b.msg.paths == EncodeAll(encode, ap.pathList)
  {
  }

  /** The counterexample: a policy with 256 paths gets a details message
      that declares no paths and is allocated for the header only, while
      all 256 records are written after it. */
  lemma PolicyDetailsAsWrittenOverrunsAt256(c: Config, encode: RoutePath -> WirePath, context: u32, ap: Policy)
    requires |ap.pathList| == 0x100
    ensures var b := PolicyDetailsAsWritten(c, encode, context, ap);
            && b.msg.nPaths == 0
            && b.msg.size == c.policyDetailsSize
            && b.overrun == 0x100
  {
  }

  /** The largest count the u8 n_paths field can declare. */
  const MaxDetailPaths: nat := 0xFF

  /** The number of paths a details message can carry for a path list of
      the given length: all of them, up to what the count field holds. */
  function DetailCount(len: nat): (n: u8)
    ensures n <= len
    ensures n == len <==> len <= MaxDetailPaths
    ensures n < len ==> n == MaxDetailPaths
  {
    if len <= MaxDetailPaths then len else MaxDetailPaths
  }

  /** abf_policy_send_details with the count kept within its field: the
      message carries the first min(n, 255) paths of the path list, declares
      that many, and is allocated for exactly that many records. */
  function PolicyDetailsFor(c: Config, encode: RoutePath -> WirePath, context: u32, ap: Policy): (b: DetailsBuffer)
    ensures b.overrun == 0
    ensures b.msg.PolicyDetails?
    ensures b.msg.context == context
    ensures Ntohs(c.host, b.msg.msgId) == (c.ids.policyDetails + c.baseMsgId) % 0x1_0000
    ensures Ntohl(c.host, b.msg.policyId) == ap.id
    ensures Ntohl(c.host, b.msg.aclIndex) == ap.acl
    ensures b.msg.nPaths <= |ap.pathList|
    ensures b.msg.nPaths == |ap.pathList| <==> |ap.pathList| <= MaxDetailPaths
    ensures b.msg.nPaths < |ap.pathList| ==> b.msg.nPaths == MaxDetailPaths
    ensures b.msg.size == c.policyDetailsSize + c.pathRecordSize * b.msg.nPaths
    ensures |b.msg.paths| == b.msg.nPaths
    ensures forall i :: 0 <= i < b.msg.nPaths ==> b.msg.paths[i] == encode(ap.pathList[i])
  {
    var n := DetailCount(|ap.pathList|);
    var records := EncodeAll(encode, ap.pathList[..n]);
    var paths := WriteRecords(ZeroSlots(c, n), records);
    DetailsBuffer(PolicyDetailsMsg(c, context, ap, n, paths), 0)
  }

  /** Whenever the count fits its field the corrected encoding and the
      source's encoding build the same message. */
  lemma PolicyDetailsForAgreesWithSource(c: Config, encode: RoutePath -> WirePath, context: u32, ap: Policy)
    requires |ap.pathList| <= MaxDetailPaths
    ensures PolicyDetailsFor(c, encode, context, ap) == PolicyDetailsAsWritten(c, encode, context, ap)
  {
  }

  /** The wire is_ipv6 flag of an attachment's family. */
  function IsIpv6Of(p: Proto): (b: u8)
    ensures b == 1 <==> p == IP6
    ensures b == 0 <==> p.IP4?
  {
    if p == IP6 then 1 else 0
  }

  /** The family round-trips through the wire flag, and a flag read by the
      attach handler comes back normalised to 0 or 1. */
  lemma ProtoRoundTrip(p: Proto, flag: u8)
    ensures AbfCommands.ProtoOf(IsIpv6Of(p)) == p
    ensures IsIpv6Of(AbfCommands.ProtoOf(flag)) == if flag != 0 then 1 else 0
  {
  }

  /** abf_itf_attach_send_details for attachment `aia`, whose policy is
      `ap`. */
  function ItfAttachDetailsFor(c: Config, context: u32, aia: Attachment, ap: Policy): (m: Msg)
    ensures m.ItfAttachDetails?
    ensures m.context == context
    ensures Ntohs(c.host, m.msgId) == (c.ids.itfAttachDetails + c.baseMsgId) % 0x1_0000
    ensures Ntohl(c.host, m.policyId) == ap.id
    ensures Ntohl(c.host, m.swIfIndex) == aia.swIfIndex
    ensures Ntohl(c.host, m.priority) == aia.prio
    ensures m.isIpv6 == IsIpv6Of(aia.proto)
  {
    NtohlHtonl(c.host, ap.id);
    NtohlHtonl(c.host, aia.swIfIndex);
    NtohlHtonl(c.host, aia.prio);
    ItfAttachDetails(
      WireMsgId(c, c.ids.itfAttachDetails), context,
      Htonl(c.host, ap.id), Htonl(c.host, aia.swIfIndex), Htonl(c.host, aia.prio),
      IsIpv6Of(aia.proto))
  }

  /** An attachment recorded from an attach request's store call is dumped
      with the request's own wire fields: the byte swaps cancel and the
      family flag comes back as 0 or 1. */
  lemma AttachDetailsRoundTrip(c: Config, x: Externals, req: ItfAttachAddDelRequest,
                               context: u32, policyIndex: nat, ap: Policy)
    requires req.isAdd != 0
    requires var call := AbfCommands.ItfAttachAddDel(c, x, req).calls[0];
             ap.id == call.policyId
    ensures var call := AbfCommands.ItfAttachAddDel(c, x, req).calls[0];
            var aia := Attachment(call.proto, policyIndex, call.swIfIndex, call.priority);
            var m := ItfAttachDetailsFor(c, context, aia, ap);
            && m.policyId == req.attach.policyId
            && m.swIfIndex == req.attach.swIfIndex
            && m.priority == req.attach.priority
            && m.isIpv6 == (if req.attach.isIpv6 != 0 then 1 else 0)
  {
  }
}
