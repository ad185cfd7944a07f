/** The two command handlers: policy add/delete and interface
    attach/detach. Each turns a request into calls on the external FIB
    path codec and the policy/attachment engines, and turns the resulting
    status into a reply. A handler returns the status it computed, the
    calls it made in order, and the reply message. */
module AbfCommands {
  import opened ByteOrder
  import opened AbfTypes

  datatype CommandResult = CommandResult(rv: i32, calls: seq<Call>, reply: Msg)

  /** The reply REPLY_MACRO builds: the reply's message id, the request's
      context and the status in network order. */
  function StatusReply(c: Config, offset: nat, context: u32, rv: i32): (m: Msg)
    ensures m.Reply? && m.context == context
    ensures I32Of(Ntohl(c.host, m.retval)) == rv
    ensures Ntohs(c.host, m.msgId) == (offset + c.baseMsgId) % 0x1_0000
  {
    NtohlHtonl(c.host, I32Bits(rv));
    I32RoundTrip(rv);
    Reply(WireMsgId(c, offset), context, Htonl(c.host, I32Bits(rv)))
  }

  /** Outcome of decoding a request's path records in index order. */
  datatype DecodeOutcome = Decoded(paths: seq<RoutePath>) | DecodeFailed(at: nat, rv: i32)

  /** Record k is the first one the decoder rejects. */
  ghost predicate FirstFailure(decode: WirePath -> PathDecode, wire: seq<WirePath>, k: int)
  {
    && 0 <= k < |wire|
    && decode(wire[k]).rv != 0
    && forall j :: 0 <= j < k ==> decode(wire[j]).rv == 0
  }

  ghost predicate AllDecode(decode: WirePath -> PathDecode, wire: seq<WirePath>)
  {
    forall i :: 0 <= i < |wire| ==> decode(wire[i]).rv == 0
  }

  /** The loop over the path records: decode each in turn and stop at the
      first nonzero status. */
  function DecodePaths(decode: WirePath -> PathDecode, wire: seq<WirePath>): (r: DecodeOutcome)
    ensures r.Decoded? ==> AllDecode(decode, wire)
    ensures r.Decoded? ==> |r.paths| == |wire|
    ensures r.Decoded? ==> forall i :: 0 <= i < |wire| ==> r.paths[i] == decode(wire[i]).path
    ensures r.DecodeFailed? ==> FirstFailure(decode, wire, r.at) && r.rv == decode(wire[r.at]).rv
  {
    if |wire| == 0 then Decoded([])
    else
      var d := decode(wire[0]);
      if d.rv != 0 then DecodeFailed(0, d.rv)
      else
        match DecodePaths(decode, wire[1..])
        case Decoded(ps) => Decoded([d.path] + ps)
        case DecodeFailed(k, e) => DecodeFailed(k + 1, e)
  }

  /** The decoder calls for records 0 .. k-1, in that order. */
  function DecodeTrace(k: nat): (t: seq<Call>)
    ensures |t| == k
    ensures forall i :: 0 <= i < k ==> t[i] == DecodePath(i)
  {
    seq(k, i requires 0 <= i < k => DecodePath(i))
  }

  /** The store call a fully decoded request leads to: update (add) keyed
      by the host-order policy id and ACL index, or delete keyed by the
      policy id and the paths. */
  function StoreCall(c: Config, isAdd: u8, p: PolicyWire, paths: seq<RoutePath>): Call
  {
    if isAdd != 0 then PolicyUpdate(Ntohl(c.host, p.policyId), Ntohl(c.host, p.aclIndex), paths)
    else PolicyDelete(Ntohl(c.host, p.policyId), paths)
  }

  /** The status the store returns for that call. */
  function StoreStatus(x: Externals, call: Call): i32
  {
    match call
    case PolicyUpdate(id, acl, paths) => x.policyUpdate(id, acl, paths)
    case PolicyDelete(id, paths) => x.policyDelete(id, paths)
    case _ => 0
  }

  /** vl_api_abf_policy_add_del_t_handler. */
  function PolicyAddDel(c: Config, x: Externals, req: PolicyAddDelRequest): (r: CommandResult)
    requires WellFormedPolicy(req.policy)
    ensures r.reply == StatusReply(c, c.ids.policyAddDelReply, req.context, r.rv)
    ensures forall i :: 0 <= i < |r.calls| - 1 ==> r.calls[i] == DecodePath(i)
  {
    var p := req.policy;
    var outcome :=
      if p.nPaths == 0 then (c.errInvalidValue, [])
      else
        match DecodePaths(x.decodePath, p.paths)
        case DecodeFailed(k, e) =>
          (e, DecodeTrace(k + 1))
        case Decoded(paths) =>
          var call := StoreCall(c, req.isAdd, p, paths);
          (StoreStatus(x, call), DecodeTrace(p.nPaths) + [call]);
    CommandResult(outcome.0, outcome.1, StatusReply(c, c.ids.policyAddDelReply, req.context, outcome.0))
  }

  /** An empty path array is refused with the invalid-value status, for
      add and delete alike, before anything is decoded or stored. */
  lemma PolicyAddDelRejectsEmpty(c: Config, x: Externals, req: PolicyAddDelRequest)
    requires WellFormedPolicy(req.policy)
    requires req.policy.nPaths == 0
    ensures PolicyAddDel(c, x, req).rv == c.errInvalidValue
    ensures PolicyAddDel(c, x, req).calls == []
  {
  }

  /** When record k is the first the decoder rejects, its status is the
      reply's status, the decoder ran on records 0 .. k in order, and no
      store call was made. */
  lemma PolicyAddDelAbortsOnDecodeError(c: Config, x: Externals, req: PolicyAddDelRequest, k: nat)
    requires WellFormedPolicy(req.policy)
    requires FirstFailure(x.decodePath, req.policy.paths, k)
    ensures PolicyAddDel(c, x, req).rv == x.decodePath(req.policy.paths[k]).rv
    ensures PolicyAddDel(c, x, req).calls == DecodeTrace(k + 1)
    ensures forall i :: 0 <= i < |PolicyAddDel(c, x, req).calls| ==> !IsStoreCall(PolicyAddDel(c, x, req).calls[i])
  {
  }

  /** When every record decodes, exactly one store call follows the
      decoder calls: update for add, delete otherwise, carrying the
      decoded paths in request order, and its status is the reply's status
      unchanged. */
  lemma PolicyAddDelPassesStatus(c: Config, x: Externals, req: PolicyAddDelRequest)
    requires WellFormedPolicy(req.policy)
    requires req.policy.nPaths > 0 && AllDecode(x.decodePath, req.policy.paths)
    ensures var paths := seq(req.policy.nPaths, i requires 0 <= i < req.policy.nPaths =>
                               x.decodePath(req.policy.paths[i]).path);
            var call := StoreCall(c, req.isAdd, req.policy, paths);
            && PolicyAddDel(c, x, req).calls == DecodeTrace(req.policy.nPaths) + [call]
            && PolicyAddDel(c, x, req).rv == StoreStatus(x, call)
            && I32Of(Ntohl(c.host, PolicyAddDel(c, x, req).reply.retval)) == StoreStatus(x, call)
  {
    var wire := req.policy.paths;
    var paths := seq(req.policy.nPaths, i requires 0 <= i < req.policy.nPaths =>
                       x.decodePath(wire[i]).path);
    assert DecodePaths(x.decodePath, wire).paths == paths;
  }

  /** The address family an attach request names: IPv6 exactly when the
      is_ipv6 flag is nonzero. */
  function ProtoOf(isIpv6: u8): (p: Proto)
    ensures p == IP6 <==> isIpv6 != 0
    ensures p == IP4 <==> isIpv6 == 0
  {
    if isIpv6 != 0 then IP6 else IP4
  }

  /** vl_api_abf_itf_attach_add_del_t_handler. The engine's status is not
      read, so the reply always reports success. */
  function ItfAttachAddDel(c: Config, x: Externals, req: ItfAttachAddDelRequest): (r: CommandResult)
    ensures r.rv == 0
    ensures r.reply == StatusReply(c, c.ids.itfAttachAddDelReply, req.context, 0)
    ensures |r.calls| == 1 && (r.calls[0].ItfAttach? || r.calls[0].ItfDetach?)
    ensures r.calls[0].ItfAttach? <==> req.isAdd != 0
    ensures r.calls[0].proto == IP6 <==> req.attach.isIpv6 != 0
    ensures r.calls[0].ItfAttach? ==>
              && Htonl(c.host, r.calls[0].policyId) == req.attach.policyId
              && Htonl(c.host, r.calls[0].priority) == req.attach.priority
              && Htonl(c.host, r.calls[0].swIfIndex) == req.attach.swIfIndex
    ensures r.calls[0].ItfDetach? ==>
              && Htonl(c.host, r.calls[0].policyId) == req.attach.policyId
              && Htonl(c.host, r.calls[0].swIfIndex) == req.attach.swIfIndex
  {
    var a := req.attach;
    var proto := ProtoOf(a.isIpv6);
    HtonlNtohl(c.host, a.policyId);
    HtonlNtohl(c.host, a.priority);
    HtonlNtohl(c.host, a.swIfIndex);
    var call :=
      if req.isAdd != 0 then ItfAttach(proto, Ntohl(c.host, a.policyId), Ntohl(c.host, a.priority), Ntohl(c.host, a.swIfIndex))
      else ItfDetach(proto, Ntohl(c.host, a.policyId), Ntohl(c.host, a.swIfIndex));
    CommandResult(0, [call], StatusReply(c, c.ids.itfAttachAddDelReply, req.context, 0))
  }

  /** The attach/detach reply is the same whatever status the engine
      returns: the handler never reads it. This holds by construction, since
      ItfAttachAddDel never applies the engine fields of `x`; the lemma
      records the property rather than proving anything beyond that. */
  lemma ItfAttachIgnoresEngineStatus(c: Config, x: Externals, y: Externals, req: ItfAttachAddDelRequest)
    ensures ItfAttachAddDel(c, x, req).reply == ItfAttachAddDel(c, y, req).reply
    ensures ItfAttachAddDel(c, x, req).calls == ItfAttachAddDel(c, y, req).calls
  {
  }
}
