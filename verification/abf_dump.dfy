/** The handlers that answer a client directly: the version query and the
    two dumps. Each resolves the requesting client first and, when the
    client is unknown, drops the request without a reply. A dump walks the
    store and sends one detail message per visited item, carrying the
    request's context. Sending a message is modelled as appending it to the
    handler's output. */
module AbfDump {
  import opened ByteOrder
  import opened AbfTypes
  import opened AbfDetails

  /** vl_api_client_index_to_registration: the registered clients by
      client index. */
  type Clients = map<u32, Registration>

  /** The walk callback's verdict: keep walking (WALK_CONTINUE) or stop. */
  const WalkContinue: int := 1
  const WalkStop: int := 0

  /** vl_api_abf_plugin_get_version_t_handler. */
  function GetVersion(c: Config, clients: Clients, req: GetVersionRequest): (out: seq<Sent>)
    ensures req.clientIndex !in clients ==> out == []
    ensures req.clientIndex in clients ==>
              && |out| == 1
              && out[0].to == clients[req.clientIndex]
              && out[0].msg.VersionReply?
              && out[0].msg.context == req.context
              && Ntohs(c.host, out[0].msg.msgId) == (c.ids.getVersionReply + c.baseMsgId) % 0x1_0000
              && Ntohl(c.host, out[0].msg.major) == c.versionMajor
              && Ntohl(c.host, out[0].msg.minor) == c.versionMinor
  {
    if req.clientIndex !in clients then []
    else
      NtohlHtonl(c.host, c.versionMajor);
      NtohlHtonl(c.host, c.versionMinor);
      var reply := VersionReply(WireMsgId(c, c.ids.getVersionReply), req.context,
                                Htonl(c.host, c.versionMajor), Htonl(c.host, c.versionMinor));
      [Sent(clients[req.clientIndex], reply)]
  }

  /** abf_policy_send_details: build the details of one policy, send it,
      and tell the walk to continue. */
  function SendPolicyDetails(c: Config, x: Externals, rp: Registration, context: u32, ap: Policy): (r: (Sent, int))
  {
    (Sent(rp, PolicyDetailsFor(c, x.encodePath, context, ap).msg), WalkContinue)
  }

  /** Every index the policy walk yields names a policy of the pool. */
  predicate WalkInPool<T>(pool: map<nat, T>, walk: seq<nat>)
  {
    forall i :: 0 <= i < |walk| ==> walk[i] in pool
  }

  /** abf_policy_walk driving abf_policy_send_details over the policy pool
      indices in walk order; the walk stops after a callback that returns
      WalkStop. */
  function PolicyWalk(c: Config, x: Externals, rp: Registration, context: u32,
                      pool: map<nat, Policy>, walk: seq<nat>): (out: seq<Sent>)
    requires WalkInPool(pool, walk)
    ensures |out| == |walk|
    ensures forall i :: 0 <= i < |walk| ==>
              out[i] == Sent(rp, PolicyDetailsFor(c, x.encodePath, context, pool[walk[i]]).msg)
  {
    if |walk| == 0 then []
    else
      var r := SendPolicyDetails(c, x, rp, context, pool[walk[0]]);
      [r.0] + (if r.1 == WalkStop then [] else PolicyWalk(c, x, rp, context, pool, walk[1..]))
  }

  /** vl_api_abf_policy_dump_t_handler. */
  function PolicyDump(c: Config, x: Externals, clients: Clients, pool: map<nat, Policy>, walk: seq<nat>,
                      req: DumpRequest): (out: seq<Sent>)
    requires WalkInPool(pool, walk)
    ensures req.clientIndex !in clients ==> out == []
    ensures req.clientIndex in clients ==>
              && |out| == |walk|
              && forall i :: 0 <= i < |walk| ==>
                   out[i] == Sent(clients[req.clientIndex],
                                  PolicyDetailsFor(c, x.encodePath, req.context, pool[walk[i]]).msg)
  {
    if req.clientIndex !in clients then []
    else PolicyWalk(c, x, clients[req.clientIndex], req.context, pool, walk)
  }

  /** Each message of a policy dump goes to the requesting client, carries
      the request's context and the policy's id and ACL, and holds one
      record per path of that policy's path list, in path-list order, for
      every path list the count field can describe. */
  lemma PolicyDumpDescribesEachPolicy(c: Config, x: Externals, clients: Clients, pool: map<nat, Policy>,
                                      walk: seq<nat>, req: DumpRequest, i: nat)
    requires WalkInPool(pool, walk)
    requires req.clientIndex in clients
    requires i < |walk|
    requires |pool[walk[i]].pathList| <= MaxDetailPaths
    ensures var out := PolicyDump(c, x, clients, pool, walk, req);
            var ap := pool[walk[i]];
            && |out| == |walk|
            && out[i].to == clients[req.clientIndex]
            && out[i].msg.PolicyDetails?
            && out[i].msg.context == req.context
            && Ntohl(c.host, out[i].msg.policyId) == ap.id
            && Ntohl(c.host, out[i].msg.aclIndex) == ap.acl
            && out[i].msg.nPaths == |ap.pathList|
            && out[i].msg.size == c.policyDetailsSize + c.pathRecordSize * |ap.pathList|
            && out[i].msg.paths == EncodeAll(x.encodePath, ap.pathList)
  {
  }

  /** For every policy whose path list the u8 count can describe, the
      message the dump sends is exactly the one the source's
      abf_policy_send_details builds. */
  lemma PolicyDumpAgreesWithSource(c: Config, x: Externals, clients: Clients, pool: map<nat, Policy>,
                                   walk: seq<nat>, req: DumpRequest, i: nat)
    requires WalkInPool(pool, walk)
    requires req.clientIndex in clients
    requires i < |walk|
    requires |pool[walk[i]].pathList| <= MaxDetailPaths
    ensures var out := PolicyDump(c, x, clients, pool, walk, req);
            && |out| == |walk|
            && out[i] == Sent(clients[req.clientIndex],
                              PolicyDetailsAsWritten(c, x.encodePath, req.context, pool[walk[i]]).msg)
            && PolicyDetailsAsWritten(c, x.encodePath, req.context, pool[walk[i]]).overrun == 0
  {
  }

  /** abf_itf_attach_send_details: the details of one attachment, whose
      policy is looked up in the policy pool; the walk continues. */
  function SendItfAttachDetails(c: Config, rp: Registration, context: u32,
                                policies: map<nat, Policy>, aia: Attachment): (r: (Sent, int))
    requires aia.policyIndex in policies
  {
    (Sent(rp, ItfAttachDetailsFor(c, context, aia, policies[aia.policyIndex])), WalkContinue)
  }

  /** Every index the attachment walk yields names an attachment of the
      pool whose policy is in the policy pool. */
  predicate AttachWalkValid(attachments: map<nat, Attachment>, policies: map<nat, Policy>, walk: seq<nat>)
  {
    forall i :: 0 <= i < |walk| ==> walk[i] in attachments && attachments[walk[i]].policyIndex in policies
  }

  /** abf_itf_attach_walk driving abf_itf_attach_send_details. */
  function ItfAttachWalk(c: Config, rp: Registration, context: u32, attachments: map<nat, Attachment>,
                         policies: map<nat, Policy>, walk: seq<nat>): (out: seq<Sent>)
    requires AttachWalkValid(attachments, policies, walk)
    ensures |out| == |walk|
    ensures forall i :: 0 <= i < |walk| ==>
              var aia := attachments[walk[i]];
              out[i] == Sent(rp, ItfAttachDetailsFor(c, context, aia, policies[aia.policyIndex]))
  {
    if |walk| == 0 then []
    else
      var r := SendItfAttachDetails(c, rp, context, policies, attachments[walk[0]]);
      [r.0] + (if r.1 == WalkStop then [] else ItfAttachWalk(c, rp, context, attachments, policies, walk[1..]))
  }

  /** vl_api_abf_itf_attach_dump_t_handler. */
  function ItfAttachDump(c: Config, clients: Clients, attachments: map<nat, Attachment>,
                         policies: map<nat, Policy>, walk: seq<nat>, req: DumpRequest): (out: seq<Sent>)
    requires AttachWalkValid(attachments, policies, walk)
    ensures req.clientIndex !in clients ==> out == []
    ensures req.clientIndex in clients ==>
              && |out| == |walk|
              && forall i :: 0 <= i < |walk| ==>
                   var aia := attachments[walk[i]];
                   var m := out[i].msg;
                   && out[i].to == clients[req.clientIndex]
                   && m.ItfAttachDetails?
                   && m.context == req.context
                   && Ntohs(c.host, m.msgId) == (c.ids.itfAttachDetails + c.baseMsgId) % 0x1_0000
                   && Ntohl(c.host, m.policyId) == policies[aia.policyIndex].id
                   && Ntohl(c.host, m.swIfIndex) == aia.swIfIndex
                   && Ntohl(c.host, m.priority) == aia.prio
                   && m.isIpv6 == IsIpv6Of(aia.proto)
  {
    if req.clientIndex !in clients then []
    else ItfAttachWalk(c, clients[req.clientIndex], req.context, attachments, policies, walk)
  }
}
