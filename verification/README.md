# ABF binary-API handlers, modelled in Dafny

This project models the binary-API handler layer of VPP's ACL-Based Forwarding
(ABF) plugin, `src/plugins/abf/abf_api.c`, together with two pieces of the API
common layer in `src/vlibapi/api_common.h`: the bounds-checked message-table
lookup `vl_api_get_msg_data`, and the `msgbuf_t` header/payload extent that
`VL_MSG_API_POISON` and `VL_MSG_API_UNPOISON` compute.

The handlers are pure functions:

- **Command translation.** `vl_api_abf_policy_add_del_t_handler` and
  `vl_api_abf_itf_attach_add_del_t_handler` return the status they computed, the
  ordered trace of calls they made on the external collaborators, and the reply
  message.
  - The collaborators are the FIB path decoder, `abf_policy_update`/`delete` and
    `abf_itf_attach`/`detach`.
  - They are arrow-typed fields of `AbfTypes.Externals`.
- **Detail encoding.** `abf_policy_send_details` and
  `abf_itf_attach_send_details` build the detail records. Integer fields hold
  their network-order (wire) values.
- **Dump handlers.** The version query and the two dumps resolve the client
  first, and drop the request when the client is unknown.
  - Client resolution is a map from client index to registration.
  - The store walk is a given sequence of pool indices.
  - Sending is appending to the handler's output.

Byte order (`ByteOrder`):

- `htons`/`ntohs`/`htonl`/`ntohl` are arithmetic byte swaps on a little-endian
  host and the identity on a big-endian one. The host is a parameter.
- Both forms are proved equal to a reference definition through each host's
  in-memory byte layout (`Hton`/`Ntoh`).
- The round-trip and involution properties are derived from that byte-level
  theory.

Constants from the headers abf_api.c includes are fields of
`AbfTypes.Config`, because their values are not part of this model:

- the message-id offsets;
- `ABF_PLUGIN_VERSION_MAJOR`/`MINOR`;
- `VNET_API_ERROR_INVALID_VALUE`;
- `sizeof` of the details message and of one path record.

Two behaviours of the code worth knowing:

- **Attach/detach status.** `vl_api_abf_itf_attach_add_del_t_handler` ignores
  the status that `abf_itf_attach`/`abf_itf_detach` return
  (abf_api.c:114-128) and always replies 0.
- **Empty path array.** The empty-array check at abf_api.c:72 is
  unconditional, so an empty path array is refused for delete as well as for
  add.

## Model

| member | source | states |
|---|---|---|
| ByteOrder.NtohlHtonl | src/plugins/abf/abf_api.c:163-164 | decoding a field written with htonl gives back the stored value, on either host byte order |
| ByteOrder.HtonlNtohl | src/plugins/abf/abf_api.c:93-94 | re-encoding a field read with ntohl gives back the wire value, on either host byte order |
| ByteOrder.HtonlInvolution | src/plugins/abf/abf_api.c:215-217 | the 32-bit byte-order conversion is an involution |
| ByteOrder.NtohsHtons | src/plugins/abf/abf_api.c:55-56 | ntohs undoes htons on every 16-bit value |
| ByteOrder.NtohsIsHtons | src/plugins/abf/abf_api.c:55-56 | writing a message id with ntohs gives the same wire value as htons |
| ByteOrder.HtonlMeaning | src/plugins/abf/abf_api.c:58-59 | the arithmetic htonl/ntohl equal the conversions defined by laying the value out in network order and reading it in host order |
| ByteOrder.Swap32IsHton | src/plugins/abf/abf_api.c:58-59 | on a little-endian host the 32-bit conversion is exactly the reversal of the value's four bytes |
| ByteOrder.HtonIsNtoh | src/plugins/abf/abf_api.c:55-58 | for every width and host, hton and ntoh are the same conversion |
| ByteOrder.NtohHton | src/plugins/abf/abf_api.c:163-164 | for every width and host, ntoh after hton is the identity |
| ApiCommon.GetMsgData | src/vlibapi/api_common.h:404-410 | the lookup is empty exactly when msg_id >= the table length; otherwise it is the entry at index msg_id |
| ApiCommon.GetMsgDataStableUnderGrowth | src/vlibapi/api_common.h:404-410 | appending entries to the table does not change an in-range lookup |
| ApiCommon.GetMsgDataCoversTable | src/vlibapi/api_common.h:407-409 | the last entry is found at its index, and the first index past the end finds nothing |
| ApiCommon.MsgRegion | src/vlibapi/api_common.h:146-164 | the range poison and unpoison both cover starts at the msgbuf_t header just before the payload and ends at payload + ntohl(data_len), which excludes the header |
| ApiCommon.MsgRegionCoversPayload | src/vlibapi/api_common.h:137-150 | a buffer whose data_len holds htonl(n) is covered for exactly header + n bytes |
| AbfTypes.WireMsgId | src/plugins/abf/abf_api.c:55-56 | a client reading the message id with ntohs gets the message's offset plus the plugin's base id, modulo 2^16 |
| AbfCommands.StatusReply | src/plugins/abf/abf_api.c:103 | the reply carries the request's context, a message id that decodes to the reply's id, and a retval that decodes (ntohl, two's complement) to the status |
| AbfCommands.DecodePaths | src/plugins/abf/abf_api.c:80-89 | success iff every record decodes, with the decoded paths in record order; on failure, the first rejected record and its status |
| AbfCommands.PolicyAddDel | src/plugins/abf/abf_api.c:64-104 | the reply carries the computed status, and every call except a final store call is a decoder call on records 0, 1, ... in order |
| AbfCommands.PolicyAddDelRejectsEmpty | src/plugins/abf/abf_api.c:72-76 | with n_paths == 0, for add and delete alike, the status is the invalid-value error and no decoder or store call is made |
| AbfCommands.PolicyAddDelAbortsOnDecodeError | src/plugins/abf/abf_api.c:80-89 | when record k is the first rejected one, its status is the reply's status, the decoder ran on records 0..k in order, and no store call was made |
| AbfCommands.PolicyAddDelPassesStatus | src/plugins/abf/abf_api.c:91-103 | when every record decodes, exactly one store call follows: update(ntohl id, ntohl acl, paths) for add or delete(ntohl id, paths) otherwise, with the decoded paths in order; its status reaches the client unchanged |
| AbfCommands.ProtoOf | src/plugins/abf/abf_api.c:110-111 | the attach family is IP6 exactly when is_ipv6 is nonzero, IP4 exactly when it is zero |
| AbfCommands.ItfAttachAddDel | src/plugins/abf/abf_api.c:106-129 | one engine call: attach with the byte-swapped policy id, priority and interface when is_add is set, detach without a priority otherwise; the family follows is_ipv6; the status is always 0 |
| AbfCommands.ItfAttachIgnoresEngineStatus | src/plugins/abf/abf_api.c:114-128 | the reply and the calls do not depend on what the attachment engine returns |
| AbfDetails.WriteRecords | src/plugins/abf/abf_api.c:168-173 | records written from the start of a slot area land in order; slots past the last record keep their prior (zeroed) contents |
| AbfDetails.EncodeAll | src/plugins/abf/abf_api.c:169-173 | one encoded record per walked path, in walk order |
| AbfDetails.PolicyDetailsMsg | src/plugins/abf/abf_api.c:154-164 | the header carries the context, a message id decoding to the details id, a size of header + n path records, and a policy id and ACL index that decode to the policy's |
| AbfDetails.PolicyDetailsAsWritten | src/plugins/abf/abf_api.c:149-173 | as written: the count is the path-list length modulo 256, the allocation is sized for that count, and records written past the allocation plus the count equal the path-list length |
| AbfDetails.PolicyDetailsAsWrittenBelow256 | src/plugins/abf/abf_api.c:153-173 | below 256 paths: count equals the path-list length, size is header + n records, the records are the encoded paths in order, and nothing is written past the allocation |
| AbfDetails.PolicyDetailsAsWrittenOverrunsAt256 | src/plugins/abf/abf_api.c:149-154 | with 256 paths the message declares 0 paths, is allocated for the header only, and 256 records are written past it |
| AbfDetails.DetailCount | src/plugins/abf/abf_api.c:149-153 | corrected: the path-list length when it fits the u8 field, and 255 otherwise (lines 149-153 store the length mod 256, which `PolicyDetailsAsWritten` models) |
| AbfDetails.PolicyDetailsFor | src/plugins/abf/abf_api.c:149-173 | corrected: nothing is written past the allocation; the size is header + count records and the declared count equals the number of records; record i is the encoding of path i; id, ACL and context are carried |
| AbfDetails.PolicyDetailsForAgreesWithSource | src/plugins/abf/abf_api.c:149-173 | whenever the count fits its field, the corrected and as-written encodings build the same message |
| AbfDetails.IsIpv6Of | src/plugins/abf/abf_api.c:218 | is_ipv6 is 1 exactly for IP6 and 0 exactly for IP4 |
| AbfDetails.ProtoRoundTrip | src/plugins/abf/abf_api.c:218 | the family round-trips through the wire flag, and a request's flag comes back normalised to 0 or 1 |
| AbfDetails.ItfAttachDetailsFor | src/plugins/abf/abf_api.c:211-218 | the attach details carry the context, a message id decoding to the details id, policy id, interface and priority that decode to the stored values, and is_ipv6 equal to 1 for IP6 and 0 for IP4 |
| AbfDetails.AttachDetailsRoundTrip | src/plugins/abf/abf_api.c:215-218 | an attachment recorded from an attach request is dumped with the request's own policy id, interface and priority wire values and its normalised family flag |
| AbfDump.GetVersion | src/plugins/abf/abf_api.c:44-62 | nothing is sent to an unknown client; otherwise one reply goes to the client, with the request's context, the reply's message id and the version major/minor in network order |
| AbfDump.PolicyWalk | src/plugins/abf/abf_api.c:175-196 | via `SendPolicyDetails` (abf_policy_send_details), which always returns WalkContinue, exactly one message goes per walked policy, in walk order, to the dump's client |
| AbfDump.PolicyDump | src/plugins/abf/abf_api.c:182-197 | nothing is sent to an unknown client; otherwise message i is the details of walked policy i, carrying the request's context |
| AbfDump.PolicyDumpDescribesEachPolicy | src/plugins/abf/abf_api.c:161-173 | for a policy of at most 255 paths, message i has the policy's id and ACL, a count equal to its path count, a size of header + that many records, and the encoded paths in path-list order |
| AbfDump.PolicyDumpAgreesWithSource | src/plugins/abf/abf_api.c:149-196 | for every policy of at most 255 paths, message i is exactly the message the source's abf_policy_send_details builds, with nothing written past its allocation |
| AbfDump.ItfAttachWalk | src/plugins/abf/abf_api.c:220-239 | via `SendItfAttachDetails` (abf_itf_attach_send_details), which always returns WalkContinue, exactly one message goes per walked attachment, in walk order |
| AbfDump.ItfAttachDump | src/plugins/abf/abf_api.c:225-240 | nothing is sent to an unknown client; otherwise message i goes to the client and carries the request's context, a message id decoding to the details id, the attachment's policy id, interface and priority, and is_ipv6 equal to 1 for IP6 and 0 for IP4 |

## Left out

- The internals of the external collaborators are parameters of `Externals`: `fib_api_path_decode`, `fib_api_path_encode`, `abf_policy_update`, `abf_policy_delete`, `abf_itf_attach` and `abf_itf_detach`. Their source is not part of this model.
- The round-trip law between path decode and encode belongs to the external FIB codec, so it is not stated.
- Whether an attach followed by a detach restores the store belongs to the external attachment engine, so it is not stated.
- `abf_policy_walk`, `abf_itf_attach_walk` and `fib_path_list_walk_w_ext` are given sequences. The model stops a walk after a callback that returns 0, which `abf_policy_send_details` and `abf_itf_attach_send_details` never do.
- Store mutation during a walk is not modelled. Concurrency is out of scope.
- `vl_msg_api_alloc` and `vl_api_send_msg` are not modelled. Allocation is the `size` field, and sending appends to the output.
- Shared-memory queues and heap handling are not modelled.
- `REPLY_MACRO`: api_helper_macros.h is not part of this model. The reply is modelled as the message id, the request's context and the status in network order. The macro's client lookup is not modelled, so add/del replies are returned, not sent.
- `clib_mem_poison`/`clib_mem_unpoison` are not modelled, only the extent they are given. `VL_MSG_API_SVM_QUEUE_UNPOISON` (queue extent) is not modelled.
- `msgbuf_t` size assumes 64-bit pointers (16 bytes).
- `api_main_t`, the trace structures, handler registration, `setup_message_id_table`, `abf_api_init` and the plugin registration are left out. They are process set-up state with threads, event logs and shared memory.
- ApiCommon.GetMsgData: the lookup leaving the table unchanged holds by construction, since the model is a pure function. No separate contract states it.
- AbfCommands.PolicyAddDel: a request whose path array is shorter than n_paths is excluded (it requires `|paths| == n_paths`), because the message-size check that `calc_size`/`calc_size_func` (api_common.h:128, :247) provide rejects such a message before the handler runs; that check is not modelled.
- AbfDump.PolicyDump: message i is the corrected `PolicyDetailsFor` message. For a policy with 256 or more paths this is not what the source's walk sends (see Findings); for every policy of at most 255 paths `AbfDump.PolicyDumpAgreesWithSource` proves it is exactly the source's message.
- AbfDetails.PolicyDetailsAsWritten: the count `fib_path_list_get_n_paths` returns and the paths `fib_path_list_walk_w_ext` visits are both taken as the policy's one path list, so they always agree. The zero-filled slots the allocation leaves when the walk visits fewer paths than the count declares are therefore never observed.
- AbfDump.PolicyWalk: each message is described through the corrected `PolicyDetailsFor`. For a path list of 256 or more paths it describes the corrected message, not the source's overrun (see Findings).

## Findings

| source | as written | input that shows it | evidently intended | confidence | as-written member | corrected member |
|---|---|---|---|---|---|---|
| src/plugins/abf/abf_api.c:149-173 | the path-list count is stored in `u8 n_paths`; the message is sized `sizeof (*mp) + sizeof (path) * n_paths`; then one record is written per walked path | a policy whose path list holds 256 paths: n_paths = 0, the allocation is header-only, and 256 records are written past it | the declared count equals the records written, and every record lies inside the allocation | low, not executed: abf_api.c and the FIB path-list interface it calls do not show whether a path list can reach 256 paths; the returned count is a u32 | AbfDetails.PolicyDetailsAsWrittenOverrunsAt256 | AbfDetails.PolicyDetailsFor |
