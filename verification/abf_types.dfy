/** The records the ACL-Based Forwarding (ABF) plugin's API handlers
    exchange: request messages, reply and detail messages, the store's
    policy and attachment records, and the external collaborators the
    handlers call (the FIB path codec and the policy and attachment
    engines), which are parameters of the model. */
module AbfTypes {
  import opened ByteOrder

  /** fib_protocol_t restricted to the two families an attachment can
      have. */
  datatype Proto = IP4 | IP6

  /** vl_api_fib_path_t: one path record on the wire, as produced and
      consumed by the external FIB path codec. */
  datatype WirePath = WirePath(raw: seq<u8>)

  /** fib_route_path_t: a decoded path descriptor; its contents belong to
      the FIB and are not interpreted here. */
  datatype RoutePath = RoutePath(descriptor: seq<int>)

  /** What fib_api_path_decode reports for one record: a status (0 on
      success) and the descriptor it filled in. */
  datatype PathDecode = PathDecode(rv: i32, path: RoutePath)

  /** The external functions the handlers call. Each store entry point
      returns the status the engine computed. */
  datatype Externals = Externals(
    decodePath: WirePath -> PathDecode,
    encodePath: RoutePath -> WirePath,
    policyUpdate: (u32, u32, seq<RoutePath>) -> i32,
    policyDelete: (u32, seq<RoutePath>) -> i32,
    itfAttach: (Proto, u32, u32, u32) -> i32,
    itfDetach: (Proto, u32, u32) -> i32)

  /** Message-id offsets of the plugin's reply and detail messages within
      its block (from the generated message enumeration). */
  datatype MsgIds = MsgIds(
    getVersionReply: nat,
    policyAddDelReply: nat,
    itfAttachAddDelReply: nat,
    policyDetails: nat,
    itfAttachDetails: nat)

  /** Build- and start-time constants: the host byte order, the base
      message id assigned when the plugin registered its block, the message
      offsets, the plugin version, the API error code for an invalid value,
      and the C sizes of the policy details message and of one path
      record. */
  datatype Config = Config(
    host: Host,
    baseMsgId: u32,
    ids: MsgIds,
    versionMajor: u32,
    versionMinor: u32,
    errInvalidValue: i32,
    policyDetailsSize: nat,
    pathRecordSize: nat)

  /** The 16-bit wire message id of the message at `offset` in the
      plugin's block: ntohs of the sum, truncated to the field's width. */
  function WireMsgId(c: Config, offset: nat): (w: u16)
    ensures Ntohs(c.host, w) == (offset + c.baseMsgId) % 0x1_0000
  {
    NtohsIsHtons(c.host, (offset + c.baseMsgId) % 0x1_0000);
    NtohsHtons(c.host, (offset + c.baseMsgId) % 0x1_0000);
    Ntohs(c.host, (offset + c.baseMsgId) % 0x1_0000)
  }

  /** vl_api_abf_policy_t as it arrives: ids in network order and n_paths
      path records. */
  datatype PolicyWire = PolicyWire(policyId: u32, aclIndex: u32, nPaths: u8, paths: seq<WirePath>)

  /** The request carries exactly n_paths records (the transport checks
      the message length before the handler runs). */
  predicate WellFormedPolicy(p: PolicyWire)
  {
    |p.paths| == p.nPaths
  }

  datatype GetVersionRequest = GetVersionRequest(clientIndex: u32, context: u32)

  datatype PolicyAddDelRequest = PolicyAddDelRequest(clientIndex: u32, context: u32, isAdd: u8, policy: PolicyWire)

  /** vl_api_abf_itf_attach_t: ids and priority in network order. */
  datatype AttachWire = AttachWire(policyId: u32, swIfIndex: u32, priority: u32, isIpv6: u8)

  datatype ItfAttachAddDelRequest = ItfAttachAddDelRequest(clientIndex: u32, context: u32, isAdd: u8, attach: AttachWire)

  datatype DumpRequest = DumpRequest(clientIndex: u32, context: u32)

  /** The messages the handlers produce. Integer fields hold their wire
      (network-order) values. In PolicyDetails, `size` is the number of
      bytes allocated and `paths` the path records inside that allocation. */
  datatype Msg =
    | VersionReply(msgId: u16, context: u32, major: u32, minor: u32)
    | Reply(msgId: u16, context: u32, retval: u32)
    | PolicyDetails(msgId: u16, context: u32, size: nat, policyId: u32, aclIndex: u32, nPaths: u8, paths: seq<WirePath>)
    | ItfAttachDetails(msgId: u16, context: u32, policyId: u32, swIfIndex: u32, priority: u32, isIpv6: u8)

  /** A client registration, as vl_api_client_index_to_registration
      returns it. */
  datatype Registration = Registration(handle: nat)

  /** One message handed to vl_api_send_msg for a client. */
  datatype Sent = Sent(to: Registration, msg: Msg)

  /** abf_policy_t: the policy id, the ACL it matches with, and its path
      list in the order the path-list walk visits it. */
  datatype Policy = Policy(id: u32, acl: u32, pathList: seq<RoutePath>)

  /** abf_itf_attach_t: the family, the pool index of the attached policy,
      the interface and the priority. */
  datatype Attachment = Attachment(proto: Proto, policyIndex: nat, swIfIndex: u32, prio: u32)

  /** The calls a handler makes on the external collaborators, in order. */
  datatype Call =
    | DecodePath(index: nat)
    | PolicyUpdate(policyId: u32, aclIndex: u32, paths: seq<RoutePath>)
    | PolicyDelete(policyId: u32, paths: seq<RoutePath>)
    | ItfAttach(proto: Proto, policyId: u32, priority: u32, swIfIndex: u32)
    | ItfDetach(proto: Proto, policyId: u32, swIfIndex: u32)

  predicate IsStoreCall(c: Call)
  {
    !c.DecodePath?
  }
}
