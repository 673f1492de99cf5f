# Neighbor Discovery and RPL route maintenance, modelled in Dafny

This project models two sequential, run-to-completion parts of a Contiki
IPv6 stack (the RPL-based Neighbor Discovery for 6LoWPANs variant). It
proves what they do.

**The Neighbor Discovery engine of `core/net/ipv6/uip-nd6.c`.** This engine
implements RFC 4861 in three builds: classic IPv6, 6LoWPAN-ND (the Address
Registration Option of RFC 6775) and RPL. The model has these parts:

- **Option walker.** The walker of the handlers' type-length-value option
  chains (`NdOptions`, `Nd6Walk`).
- **Handlers.** The four input handlers `ns_input`, `na_input`,
  `rs_input` and `ra_input`. Each is a specification function over the
  engine state (`Nd6Ns`, `Nd6Na`, `Nd6Router`).
- **Builders.** The packet builders `uip_nd6_create_na`,
  `uip_nd6_append_icmp_opt`, `create_llao`, `create_aro`,
  `uip_nd6_ns_output`, `uip_nd6_rs_output`, `uip_nd6_ra_output` and
  `uip_nd6_registration_error`. They are functions on the bytes of `uip_buf`
  (`NdPackets`, `NdReplies`).
- **Engine class.** The engine itself is the class `Nd6Engine.Stack`. It
  holds, as fields updated in place, the neighbor cache, the address,
  prefix and default-router lists, the interface parameters, the static
  pointers `nd6_opt_llao`, `nd6_opt_aro`, `nbr` and `defrt`, a fixed-size
  `uip_buf` array and `uip_len`. Each handler is a method:
  - its option loop is a `while` loop over the buffer;
  - each method is proved to leave the engine exactly as the
    specification function says;
  - the properties of the specification functions are the lemmas of
    `Nd6NsProps`, `Nd6NaProps`, `Nd6RsProps`, `Nd6RaProps` and
    `Nd6PrefixProps`.
- **Build parameters.** The build is a parameter: a `Config` names the
  engine (`Classic | SixLo | Rpl`), the router and DAD switches,
  `uip_lladdr`, the checksum routine and source address selection.

**Route maintenance of `core/net/rpl/rpl.c`.** This covers:

- the route list with lifetimes, DAGs and next hops, and the No-Path DAOs of
  RFC 6550 section 6.4;
- the parents of the RPL instances;
- the mode;
- the bounded source-info list.

`Rpl` holds the specification functions and their lemmas. The class
`RplNode.Node` holds the route list, the mode, the default instance, the
instance table (an array) and the source-info list. Its methods run the
loops of `rpl.c` and are proved against those functions.

Undefined behaviour is an explicit outcome rather than a precondition: a
handler that writes through NULL, reads an uninitialised pointer or uses a
removed entry ends in `Undefined(site)`. The exceptions are the two
dereferences of `default_instance` in `rpl.c` without a NULL check
(`rpl.c:215` in `rpl_purge_routes`, `rpl.c:381` in
`rpl_ipv6_neighbor_callback`): `Rpl.Purge`, `RplNode.Node.PurgeRoutes`,
`RplNode.Node.Ipv6NeighborCallback` and its loops `RplNode.NeighborRoutes`,
`RplNode.NeighborPass`, `RplNode.DropFirstRoute` and `RplNode.DropEveryRoute`
require a default instance wherever the source reaches one of them. Calls into other modules
(`uip_ds6_dad_failed`, `uip_ds6_send_ra_sollicited`, `dao_output_target`,
`rpl_schedule_dao_immediately`, `gw_nbr_delete`, ...) are recorded as
events.

Where the source departs from the RFCs, the model keeps the source's
behaviour and a lemma states the difference:

- the SLLAO case of `ra_input` falls through into the MTU case;
- the remaining lifetime is reset to two hours where RFC 4862 section
  5.5.3(e) ignores the option;
- `nd6_opt_aro` keeps a value from an earlier NA;
- `nbr` and `defrt` are stale in `ra_input`;
- the classic NA body is compiled out by the guard at `uip-nd6.c:409`;
- the re-registration branch writes through the uninitialised
  `reg_neighbor`;
- `create_na` copies its target from NULL.

The model keeps these behaviours of the code as they are written:

- **Expired routes in `rpl_purge_routes`.** A purge outside the root
  removes only the first expired route and returns. The other expired
  routes stay, at lifetime zero, until later calls. They are not removed
  at once with a deferred DAO.
- **`rpl_link_neighbor_callback`** flags the parent but does not touch its
  rank.
- **The 6LoWPAN-ND "new registration" branch** is never reached from
  `ns_input`, because the SLLAO the NS must carry has already added the
  source to the cache (`NsAroSourceRegistered`).
- **The neighbor-loss loop.** Whether it removes every route through the
  neighbor or one per instance depends on `list_remove`, which is a
  parameter.
- **The option walker** does not check option data against `uip_len`.
  A read past `uip_buf` is flagged only where the build reads the bytes:
  the address of an NS's SLLAO is read for a source without an entry, and
  for a known source only in the classic build; under RPL an RA's SLLAO
  reads no address, only the MTU field of the case it falls into.

## Model

| member | source | states |
|---|---|---|
| NdOptions.WalkOptions | core/net/ipv6/uip-nd6.c:202-207 | the walk visits exactly the chain the length bytes describe: the first option at the start offset, each next one where the previous ends (offset + length * 8), every length nonzero, every option inside the packet |
| NdOptions.WalkStop | core/net/ipv6/uip-nd6.c:202-207 | a completed walk ends at or past `uip_len`; a zero-length stop saw a length byte 0 inside the packet; an out-of-buffer stop is at the end of `uip_buf` |
| NdOptions.WalkReadsBody | core/net/ipv6/uip-nd6.c:202-260 | the walk depends only on the message body, not on the headers before it |
| NdOptions.WalkBounded | core/net/ipv6/uip-nd6.c:260 | termination: the walk yields at most one option per 8 bytes of the packet |
| Nd6Walk.AsWrittenNeverCompletes | core/net/ipv6/uip-nd6.c:127 | with the declared `uint8_t` offset, a message longer than 299 bytes never completes its option loop, for any fuel: only a zero length, an option handler or a read outside `uip_buf` ends it |
| Nd6Walk.AsWrittenLoopsForEver | core/net/ipv6/uip-nd6.c:127 | with the declared `uint8_t` offset, an option of unknown type and length byte 32 inside the message makes every handler's loop run for ever, while the loop with a wide offset skips it and completes when the message ends within its 256 bytes |
| Nd6Walk.AsWrittenAgrees | core/net/ipv6/uip-nd6.c:127 | the loop as written, given one advance per option, gives the same result as `OptLoop` on every message whose options end within 256 bytes of the body |
| Nd6Walk.OptLoopFollowsWalk | core/net/ipv6/uip-nd6.c:202-261 | every handler's option loop applies the walker's options in order and ends as the walker does, unless an option ends the handler first |
| Nd6Walk.OptionStepHalts | core/net/ipv6/uip-nd6.c:209-259 | an option case leaves its handler only to discard or with undefined behaviour |
| Nd6Walk.ZeroLengthDiscards | core/net/ipv6/uip-nd6.c:203-207 | a zero option length ends every handler's loop with a discard (or the undefined behaviour of an earlier option); a loop that runs to its end walked a complete chain |
| Nd6Walk.LoopHalts | core/net/ipv6/uip-nd6.c:592-623 | every handler's loop leaves its handler only to discard or with undefined behaviour |
| Nd6Walk.PointerOnlyLoops | core/net/ipv6/uip-nd6.c:807-823 | the NA and RS loops change no table, event or entry pointer, and leave `nd6_opt_llao` at the chain's last link-layer option |
| Nd6Walk.RaMtu | core/net/ipv6/uip-nd6.c:1127-1131 | the MTU case changes only the link MTU, to a value below 2^32 whose four bytes in network order are bytes 4 to 7 of the option |
| Nd6RaProps.RaOptionMtu | core/net/ipv6/uip-nd6.c:1078-1131 | an RA option that lets the loop go on sets the link MTU to bytes 4-7 of an MTU option or of an SLLAO, and keeps it for any other option |
| NdPackets.Complement | core/net/ipv6/uip-nd6.c:1367-1371 | read as a 16-bit value in network order, the stored checksum is 65535 minus the computed one, the `~` of a `uint16_t` |
| NdPackets.ChecksumElsewhere | core/net/ipv6/uip-nd6.c:1367-1371 | the checksum update changes only the two checksum bytes |
| NdPackets.CreateNa | core/net/ipv6/uip-nd6.c:1332-1363 | `uip_nd6_create_na` writes within `uip_buf` and sets `uip_len` to the NA length |
| NdPackets.AppendLlao | core/net/ipv6/uip-nd6.c:1297-1329 | appending an SLLAO or TLLAO grows `uip_len` by 16 within `uip_buf` |
| NdPackets.AppendAro | core/net/ipv6/uip-nd6.c:1297-1329 | appending an ARO grows `uip_len` by 16 within `uip_buf` |
| NdPackets.NsOutputSixLoParses | core/net/ipv6/uip-nd6.c:450-531 | a 6LoWPAN-ND NS leaves with an SLLAO and an ARO, both carrying `uip_lladdr`, status 0 and the reachable time truncated to 16 bits, which the NS walker reads back as exactly those two options |
| NdPackets.NsOutputAddressed | core/net/ipv6/uip-nd6.c:450-470 | every NS goes to `dest`, or to the solicited-node address of the target without one, with `tgt` as target; its source is `src` or the selected one, except the classic DAD probe for our own address, which leaves from `::`; under RPL the source and `uip_len` are kept |
| NdPackets.NsOutputClassicParses | core/net/ipv6/uip-nd6.c:471-497 | a classic NS for our own address has no option; any other carries an SLLAO with `uip_lladdr`, or is dropped with `uip_len` 0 when no source is found; the NS walker reads exactly those options back and the payload length matches `uip_len` |
| NdPackets.RaOutputParses | core/net/ipv6/uip-nd6.c:874-980 | an RA carries exactly an SLLAO with `uip_lladdr` and an MTU option of 1500; the prefix loop at 908 is compiled out |
| NdPackets.RaOutputAddressed | core/net/ipv6/uip-nd6.c:874-980 | the RA goes to the given destination, or to all nodes without one, and its payload length field matches `uip_len` |
| NdPackets.RsOutputParses | core/net/ipv6/uip-nd6.c:986-1022 | an RS goes to all routers and carries an SLLAO exactly when a source address was found |
| NdPackets.NaReplyParses | core/net/ipv6/uip-nd6.c:1332-1363 | a classic NA reply carries its addresses, flags and target as given and one TLLAO, which the NA walker reads back |
| NdPackets.ChecksumKeepsHeader | core/net/ipv6/uip-nd6.c:1367-1371 | the checksum update keeps both addresses, the target, the flags and the message type |
| NdReplies.AddressesWritten | core/net/ipv6/uip-nd6.c:304-316 | two address writes, source last, leave both addresses as written |
| NdReplies.CreateNaFields | core/net/ipv6/uip-nd6.c:1332-1363 | the NA header: version, next header, hop limit 255, addresses, type 136, flags, target and payload length, with every later byte kept |
| NdReplies.LlaoAppended | core/net/ipv6/uip-nd6.c:1297-1329 | an appended link-layer option: type and length 2 at the old end of the message, the 8 address bytes copied, `uip_len` grown by 16, the rest kept |
| NdReplies.AroAppended | core/net/ipv6/uip-nd6.c:1297-1329 | an appended ARO: type, length 2, status, lifetime and EUI-64 at the old end of the message, `uip_len` grown by 16, the rest kept |
| NdReplies.ErrorNaHeader | core/net/ipv6/uip-nd6.c:1376-1389 | an error NA goes back to the NS sender from the NS destination with the R flag and a target copied from NULL |
| NdReplies.SuccessNaHeader | core/net/ipv6/uip-nd6.c:423-429 | a success NA has the same header |
| NdReplies.ErrorNaOptions | core/net/ipv6/uip-nd6.c:1376-1389 | an error NA carries a TLLAO with the NS's SLLAO address and an ARO with the status, and the walker reads exactly these two |
| NdReplies.ErrorNaEchoes | core/net/ipv6/uip-nd6.c:1376-1389 | when the NS's ARO lies past the TLLAO the reply writes, the error NA echoes the ARO's lifetime and EUI-64 |
| NdReplies.ErrorNaOverwritesAro | core/net/ipv6/uip-nd6.c:1376-1389 | an ARO at 64 before an SLLAO at 80 is overwritten by the TLLAO before it is copied: the echoed lifetime is two bytes of the link-layer address |
| NdReplies.SuccessNaOptions | core/net/ipv6/uip-nd6.c:423-429 | a success NA carries one ARO with status 0, the only option the NA walker reads |
| NdReplies.SuccessNaEchoes | core/net/ipv6/uip-nd6.c:423-429 | a success NA echoes the lifetime and EUI-64 of the NS's ARO |
| NdReplies.ErrorNaReply | core/net/ipv6/uip-nd6.c:1376-1389 | the whole error NA: header, TLLAO, ARO with the status, exactly two options |
| NdReplies.SuccessNaReply | core/net/ipv6/uip-nd6.c:423-429 | the whole success NA: header, one ARO with status 0 echoing lifetime and EUI-64 |
| Nd6NsProps.NsOptionRegisters | core/net/ipv6/uip-nd6.c:210-225 | an SLLAO leaves the NS source with a neighbor entry or finds the cache full, and later options keep that |
| Nd6NsProps.NsLoopEffects | core/net/ipv6/uip-nd6.c:202-261 | the NS option loop changes only the neighbor cache, adds entries only for the NS source and keeps every other entry; from the unspecified address it changes nothing; after an SLLAO the source is registered or the cache is full |
| Nd6NsProps.NsLoopPointers | core/net/ipv6/uip-nd6.c:209-255 | the option pointers lie after the NS body, and an SLLAO's address inside `uip_buf` unless the source already had an entry (6LoWPAN-ND and RPL builds read no address then) |
| Nd6NsProps.NsAroSourceRegistered | core/net/ipv6/uip-nd6.c:344-360 | in 6LoWPAN-ND an NS whose ARO is acted on comes from a source that has an entry or finds the cache full, so the new-registration branch is never reached from `ns_input` |
| Nd6NsProps.NsAnswerReply | core/net/ipv6/uip-nd6.c:408-438 | with the guard at 409 the answer is an NA with the given flags (plus R on a router) and a TLLAO; without it the received NS, rewritten, is sent with a new checksum |
| Nd6NsProps.NsDadTentative | core/net/ipv6/uip-nd6.c:274-283 | an NS from :: to a solicited-node address for a TENTATIVE address of ours calls `uip_ds6_dad_failed` and is discarded |
| Nd6NsProps.NsDadDefends | core/net/ipv6/uip-nd6.c:266-279 | the same NS for an address that is not TENTATIVE is answered to all nodes with the O flag only, from the selected source, and no table changes |
| Nd6NsProps.NsDadIgnored | core/net/ipv6/uip-nd6.c:263-289 | any other NS from :: is discarded with no change |
| Nd6NsProps.NsResolves | core/net/ipv6/uip-nd6.c:304-317 | an NS from another node for our address, to its solicited-node address or to the address itself, is answered to its sender from the target with S and O |
| Nd6NsProps.NsNotForUs | core/net/ipv6/uip-nd6.c:290-325 | every other NS from another node is discarded |
| Nd6NsProps.NsRplNeverReplies | core/net/ipv6/uip-nd6.c:404-406 | under RPL the NS handler forwards or discards, never answers |
| Nd6NsProps.NsSixLoNoAro | core/net/ipv6/uip-nd6.c:327-341 | an NS without an ARO to act on is forwarded unchanged |
| Nd6NsProps.NsSixLoBadAro | core/net/ipv6/uip-nd6.c:331-334 | an ARO with a length other than 2 or a nonzero status is discarded |
| Nd6NsProps.NsSixLoCacheFull | core/net/ipv6/uip-nd6.c:344-351 | a well-formed ARO from a source without an entry is refused with status 2 and no entry is created |
| Nd6NsProps.NsSixLoDuplicate | core/net/ipv6/uip-nd6.c:368-379 | an ARO naming another EUI-64 than the source's entry is refused with status 1 and the entry is kept; when the unread SLLAO address runs past `uip_buf`, building that error NA reads past it |
| Nd6NsProps.NsSixLoSameEui | core/net/ipv6/uip-nd6.c:380-401 | an ARO repeating the entry's EUI-64 is discarded when the entry is garbage-collectable, and otherwise writes through the uninitialised `reg_neighbor` |
| Nd6NsProps.NsSixLoRegisters | core/net/ipv6/uip-nd6.c:342-360 | the registration branch, from a state without the source and with room: a new REACHABLE, REGISTERED entry for the ARO's EUI-64 with the ARO lifetime |
| Nd6NsProps.NsSixLoRegistersReply | core/net/ipv6/uip-nd6.c:423-429 | the registration branch answers with the success NA echoing the ARO |
| Nd6NaProps.NaLoopAro | core/net/ipv6/uip-nd6.c:592-623 | the NA loop keeps `nd6_opt_aro` when the message has no ARO; a pointer it sets names an ARO of length 2 with our EUI-64 |
| Nd6NaProps.NaOnlyTouchesOneEntry | core/net/ipv6/uip-nd6.c:624-771 | every NA is consumed: no answer, no entry or router added, only the target's (classic) or sender's (6LoWPAN-ND) entry changes, prefixes and interface kept |
| Nd6NaProps.NaRplIgnores | core/net/ipv6/uip-nd6.c:624-751 | under RPL `na_input` changes no table and records no event |
| Nd6NaProps.NaWalkTllao | core/net/ipv6/uip-nd6.c:599-602 | the TLLAO the classic handler reads is the last one of the chain |
| Nd6NaProps.NaForOurAddress | core/net/ipv6/uip-nd6.c:672-679 | an NA for our own address is discarded and fails DAD when the address is TENTATIVE |
| Nd6NaProps.NaForUnknownTarget | core/net/ipv6/uip-nd6.c:680-687 | an NA for a target without an entry changes nothing |
| Nd6NaProps.NaCompletesResolution | core/net/ipv6/uip-nd6.c:694-714 | an INCOMPLETE entry without a TLLAO is discarded; with one it takes the address and becomes REACHABLE if solicited, STALE otherwise, router flag from R |
| Nd6NaProps.NaWithoutOverride | core/net/ipv6/uip-nd6.c:717-722 | without O, a changed address is not applied; REACHABLE drops to STALE |
| Nd6NaProps.NaUpdatesNeighbor | core/net/ipv6/uip-nd6.c:723-748 | otherwise the address is applied, solicited makes REACHABLE, a changed address unsolicited makes STALE; a router turning host loses its default-router entry |
| Nd6NaProps.NaKeepsEarlierAro | core/net/ipv6/uip-nd6.c:590-627 | an NA with no ARO acts on the ARO pointer of an earlier message |
| Nd6NaProps.NaAroIsOurs | core/net/ipv6/uip-nd6.c:604-616 | an ARO pointer the NA loop sets carries our EUI-64 |
| Nd6NaProps.NaConfirmsUnregistration | core/net/ipv6/uip-nd6.c:628-634 | lifetime 0 for an entry TO_BE_UNREGISTERED removes the router's entry |
| Nd6NaProps.NaConfirmsRegistration | core/net/ipv6/uip-nd6.c:637-649 | status 0: the entry becomes REACHABLE and REGISTERED with nscount 0, timers from the ARO lifetime, `defrt` moved to the router |
| Nd6NaProps.NaRefusesDuplicate | core/net/ipv6/uip-nd6.c:650-654 | status 1 removes the registered address from ours |
| Nd6NaProps.NaRefusesFullCache | core/net/ipv6/uip-nd6.c:655-662 | status 2 removes the router's neighbor entry |
| Nd6NaProps.NaIgnoresOtherStatus | core/net/ipv6/uip-nd6.c:663-665 | any other status changes no table |
| Nd6NaProps.NaFromUnknownRouter | core/net/ipv6/uip-nd6.c:626-627 | an ARO from a sender without an entry is a read through NULL |
| Nd6RsProps.RsLoop | core/net/ipv6/uip-nd6.c:804-823 | the RS loop only moves `nd6_opt_llao`, to the last SLLAO, and runs to its end exactly when the chain is well formed |
| Nd6RsProps.RsRejected | core/net/ipv6/uip-nd6.c:796-812 | an RS failing its checks or with a zero-length option is discarded, only `nd6_opt_llao` moves |
| Nd6RsProps.RsWithoutSllao | core/net/ipv6/uip-nd6.c:862-865 | without an SLLAO no table changes and the solicited RA is scheduled |
| Nd6RsProps.RsUnspecifiedSource | core/net/ipv6/uip-nd6.c:827-829 | an SLLAO from :: is discarded and no RA is scheduled |
| Nd6RsProps.RsNewNeighbor | core/net/ipv6/uip-nd6.c:832-841 | a new solicitor gets a STALE host entry with the SLLAO's address when the cache has room |
| Nd6RsProps.RsCacheFull | core/net/ipv6/uip-nd6.c:832-841 | with the cache full no entry is added, and the 6LoWPAN-ND build writes through NULL |
| Nd6RsProps.RsSameAddress | core/net/ipv6/uip-nd6.c:842-853 | a known solicitor with the same address is only marked as a host |
| Nd6RsProps.RsChangedAddress | core/net/ipv6/uip-nd6.c:844-853 | a known solicitor with a new address gets a fresh STALE entry: state, timers and registration are lost |
| Nd6RsProps.ReplaceEntry | core/net/ipv6/uip-nd6.c:849-853 | removing an entry and adding it back with a new address leaves the STALE entry of that address |
| Nd6RsProps.RsOnlyTouchesSource | core/net/ipv6/uip-nd6.c:825-865 | an RS never answers and changes only its source's neighbor entry |
| Nd6RaProps.RaOptionEffect | core/net/ipv6/uip-nd6.c:1078-1246 | one RA option changes only the sender's entry, the MTU, prefixes and addresses, and only an SLLAO moves `nbr` |
| Nd6RaProps.RaLoop | core/net/ipv6/uip-nd6.c:1072-1248 | the RA loop keeps that effect; without an SLLAO the cache and `nbr` stay; after one `nbr` points to the sender's entry |
| Nd6RaProps.RaRouterKeeps | core/net/ipv6/uip-nd6.c:1250-1270 | the router-lifetime part changes no interface parameter, prefix, address, event or buffer byte, and ends in a discard or a stale-pointer use |
| Nd6RaProps.RaRejected | core/net/ipv6/uip-nd6.c:1045-1051 | an RA failing its checks is discarded with no change |
| Nd6RaProps.RaSetsParameters | core/net/ipv6/uip-nd6.c:1054-1069 | hop limit, base reachable time, reachable time and retransmission timer follow RFC 4861 section 6.3.4: nonzero fields only, reachable time redrawn when the base changes; no answer, no event |
| Nd6RaProps.RaLoopMtu | core/net/ipv6/uip-nd6.c:1072-1248 | the loop leaves the link MTU at the last MTU option or SLLAO of the chain |
| Nd6RaProps.RaLinkMtu | core/net/ipv6/uip-nd6.c:1079-1131 | an accepted RA sets the link MTU from its last MTU option or SLLAO, and keeps it with neither |
| Nd6RaProps.RaSllaoSetsMtu | core/net/ipv6/uip-nd6.c:1126-1131 | an RA with only an SLLAO sets the link MTU to bytes 2 to 5 of the link-layer address |
| Nd6RaProps.RaSenderIsRouter | core/net/ipv6/uip-nd6.c:1250-1253 | an RA with an SLLAO and a nonzero lifetime marks its sender as a router |
| Nd6RaProps.RaMarksEarlierNeighbor | core/net/ipv6/uip-nd6.c:1250-1253 | without an SLLAO, the entry `nbr` still points to is marked, or a removed one written through |
| Nd6RaProps.RaDefaultRouter | core/net/ipv6/uip-nd6.c:1254-1264 | in 6LoWPAN-ND a nonzero lifetime adds or refreshes the sender as default router; `defrt` holds the earlier lookup |
| Nd6RaProps.RaKeepsRoutersOutside6Lo | core/net/ipv6/uip-nd6.c:1250-1264 | the classic and RPL builds leave the default-router list alone |
| Nd6RaProps.RaZeroLifetime | core/net/ipv6/uip-nd6.c:1265-1268 | a zero lifetime removes whichever router `defrt` points to, or uses a stale pointer |
| Nd6PrefixProps.PrefixIgnored | core/net/ipv6/uip-nd6.c:1135-1137 | a prefix with preferred > valid or link-local is ignored |
| Nd6PrefixProps.OnLinkAdds | core/net/ipv6/uip-nd6.c:1139-1158 | a new on-link prefix with a finite nonzero lifetime is appended, found by lookup, with that lifetime |
| Nd6PrefixProps.OnLinkSkipsInfinite | core/net/ipv6/uip-nd6.c:1142-1145 | a new prefix with lifetime 0 or infinite is not added |
| Nd6PrefixProps.OnLinkHostUpdates | core/net/ipv6/uip-nd6.c:1160-1179 | a host removes, makes infinite or re-times a known prefix, keeping the others in order |
| Nd6PrefixProps.OnLinkRouterKeeps | core/net/ipv6/uip-nd6.c:1159-1160 | a router leaves a known prefix as it is |
| Nd6PrefixProps.AutonomousForms | core/net/ipv6/uip-nd6.c:1184-1221 | an autonomous /64 forms a new autoconfigured address from `uip_lladdr`, TENTATIVE iff DAD runs, with the advertised or infinite lifetime |
| Nd6PrefixProps.AutonomousRefreshes | core/net/ipv6/uip-nd6.c:1191-1212 | an existing autoconfigured address gets the two-hour-rule lifetime or becomes infinite; nothing else changes |
| Nd6PrefixProps.AutonomousDuplicates | core/net/ipv6/uip-nd6.c:1213-1221 | a manual address equal to the formed one gets a second, autoconfigured entry |
| Nd6PrefixProps.AutoconfNeverShortens | core/net/ipv6/uip-nd6.c:1192-1208 | the lifetime never drops below two hours or the time remaining, as RFC 4862 section 5.5.3(e) guards |
| Nd6PrefixProps.AutoconfLifetimeVsRfc4862 | core/net/ipv6/uip-nd6.c:1192-1208 | agrees with RFC 4862 section 5.5.3(e) exactly unless less than two hours remain and the advertised value is no longer; then it is longer |
| Nd6PrefixProps.AutoconfLifetimeExtends | core/net/ipv6/uip-nd6.c:1203-1204 | ten minutes left, one advertised: the RFC keeps ten minutes, the source sets two hours |
| Nd6Engine.Stack.ProcessOptions | core/net/ipv6/uip-nd6.c:202-261 | the `while` loop over `uip_buf` leaves the state and exit of `OptLoop` |
| Nd6Engine.Stack.NsInput | core/net/ipv6/uip-nd6.c:172-445 | the method leaves state, buffer, `uip_len` and outcome as `Nd6Ns.NsInput` |
| Nd6Engine.Stack.NaInput | core/net/ipv6/uip-nd6.c:551-772 | as `Nd6Na.NaInput` |
| Nd6Engine.Stack.RsInput | core/net/ipv6/uip-nd6.c:778-870 | as `Nd6Router.RsInput`, with `uip_buf` unchanged |
| Nd6Engine.Stack.Solicitor | core/net/ipv6/uip-nd6.c:830-863 | the solicitor's entry update in place, as `Nd6Router.RsNeighbor` |
| Nd6Engine.Stack.RaInput | core/net/ipv6/uip-nd6.c:1035-1294 | as `Nd6Router.RaInput`, with `uip_buf` unchanged |
| Nd6Engine.Stack.UpdateIface | core/net/ipv6/uip-nd6.c:1054-1069 | the interface fields updated in place, as `RaIface` |
| Nd6Engine.Stack.RouterLifetime | core/net/ipv6/uip-nd6.c:1250-1270 | the router-lifetime tail in place, as `Nd6Router.RaRouter` |
| Nd6Engine.Stack.NsOutput | core/net/ipv6/uip-nd6.c:450-531 | `uip_buf`, `uip_len` and `nd6_opt_aro` as `NdPackets.NsOutput` |
| Nd6Engine.Stack.RsOutput | core/net/ipv6/uip-nd6.c:986-1022 | `uip_buf` and `uip_len` as `NdPackets.RsOutput` |
| Nd6Engine.Stack.RaOutput | core/net/ipv6/uip-nd6.c:873-980 | `uip_buf` and `uip_len` as `NdPackets.RaOutput` |
| Rpl.Decremented | core/net/rpl/rpl.c:189-201 | the first purge pass keeps the routes, lowering each positive lifetime by one |
| Rpl.PurgedRoutes | core/net/rpl/rpl.c:204-227 | a purge in a root leaves exactly the routes whose lifetime was at least two, each one lower, in order |
| Rpl.PurgeKeepsLiving | core/net/rpl/rpl.c:189-227 | a route with lifetime at least two survives every purge, one lower |
| Rpl.PurgeInRoot | core/net/rpl/rpl.c:204-227 | in a root every dead route goes, the others stay in order, nothing is sent |
| Rpl.PurgeOutsideRoot | core/net/rpl/rpl.c:204-222 | outside a root the purge removes exactly the first dead route and sends one No-Path DAO for its prefix to the preferred parent; every later dead route stays, at lifetime 0; nothing is sent iff no lifetime drops to 0 |
| Rpl.RemoveRoutesSpec | core/net/rpl/rpl.c:252-261 | no route of the DAG remains; every other route stays in order |
| Rpl.RemoveByNexthopSpec | core/net/rpl/rpl.c:282-292 | no route of the DAG through the next hop remains; all others stay in order |
| Rpl.AddRouteSpec | core/net/rpl/rpl.c:296-318 | the added route is the only one to its destination, heads the list, with the DAG, default lifetime and internal origin; a full table adds nothing |
| Rpl.AddThenRemove | core/net/rpl/rpl.c:245-318 | a route added for a DAG is gone after removing the DAG's routes |
| Rpl.AddedRouteSurvivesPurge | core/net/rpl/rpl.c:178-318 | a route added with lifetime at least two survives the next purge |
| Rpl.ModeEvents | core/net/rpl/rpl.c:151-173 | mesh schedules a DAO and feather cancels it, each only with a default instance; other modes call nothing |
| Rpl.UnreachableSpec | core/net/rpl/rpl.c:362-370 | only the parent at the address in a used instance changes: infinite rank, UPDATED |
| Rpl.LinkUpdateSpec | core/net/rpl/rpl.c:331-344 | only that parent changes: UPDATED and, with a link callback, the new transmission time; no rank changes |
| Rpl.LinkKeepsInfiniteRank | core/net/rpl/rpl.c:331-370 | a parent that lost reachability keeps its infinite rank through a later link callback |
| Rpl.DropPassesFrom | core/net/rpl/rpl.c:375-388 | the neighbor-loss passes remove only routes through the neighbor and add none |
| Rpl.DropAllRoutes | core/net/rpl/rpl.c:375-388 | when `list_remove` leaves the next pointer, the first used instance removes every route through the neighbor |
| Rpl.DropOnePerInstance | core/net/rpl/rpl.c:375-388 | when `list_remove` clears it, each used instance removes only the next route through the neighbor, in order |
| Rpl.DropFirst | core/net/rpl/rpl.c:375-388 | one pass removes the first route through the neighbor |
| Rpl.SourceAddSpec | core/net/rpl/rpl.c:112-123 | adding keeps the list distinct and within 5 slots and keeps every old ID; the ID is in the list afterwards unless written through NULL, which happens exactly when the ID is new and all 5 slots are taken |
| Rpl.SourcePurgeSpec | core/net/rpl/rpl.c:127-134 | purging keeps the list valid; it empties the list unless `list_remove` clears the next pointer, and then removes only the head |
| RplNode.Node.SourceinfoAdd | core/net/rpl/rpl.c:112-123 | the walk and append in place, as `SourceAdd` |
| RplNode.Node.SourceinfoPurge | core/net/rpl/rpl.c:127-134 | the removal loop in place, as `SourcePurge` |
| RplNode.Node.SetMode | core/net/rpl/rpl.c:138-176 | the mode becomes the argument and the old one is returned (what `rpl_get_mode` read before the call), with events as `ModeEvents` |
| RplNode.Node.PurgeRoutes | core/net/rpl/rpl.c:178-227 | the two loops leave routes and events as `Purge` |
| RplNode.Node.RemoveWhere | core/net/rpl/rpl.c:252-261 | the restart-from-head loop leaves exactly `Keep` of the routes |
| RplNode.Node.RemoveRoutes | core/net/rpl/rpl.c:244-275 | routes as `OtherDag` |
| RplNode.Node.RemoveRoutesByNexthop | core/net/rpl/rpl.c:277-294 | routes as `OtherHopOrDag` |
| RplNode.Node.AddRoute | core/net/rpl/rpl.c:296-318 | NULL with the list unchanged, or the new route at the head as `AddedRoutes` |
| RplNode.Node.LinkNeighborCallback | core/net/rpl/rpl.c:320-345 | every instance as `LinkUpdate`, callbacks as `LinkEvents` |
| RplNode.Node.Ipv6NeighborCallback | core/net/rpl/rpl.c:347-398 | every instance as `Unreachable`; routes and calls as `DropPasses` over the used instances |
| RplNode.DecrementLifetimes | core/net/rpl/rpl.c:189-201 | the first loop yields `Decremented` |
| RplNode.NeighborRoutes | core/net/rpl/rpl.c:375-388 | one instance's loop leaves routes and calls as `DropPass` |
| RplNode.NeighborPass | core/net/rpl/rpl.c:362-396 | one more pass continues `DropPasses` |
| RplNode.DropFirstRoute | core/net/rpl/rpl.c:375-388 | with a cleared next pointer the loop removes the first route through the neighbor |
| RplNode.DropEveryRoute | core/net/rpl/rpl.c:375-388 | with a kept next pointer the loop removes every route through the neighbor |

## Left out

- Tables of `uip-ds6` (neighbor cache, address, prefix and default-router lists, routes): not part of this model; they are abstract maps and sequences with the add/remove/lookup behaviour the handlers rely on, and `uip_ds6_route_add` is a bounded list that replaces a route to the same destination.
- Timers (`stimer_set`, `stimer_remaining`, `clock_time`): timer values are integers set to the values the source passes; nothing counts down.
- Randomness: `uip_ds6_compute_reachable_time` is the parameter `rnd` of `ra_input`.
- Checksum and source selection (`uip_icmp6chksum`, `uip_ds6_select_src`): parameters of `Config`.
- Build constants defined in headers not part of this model (`UIP_ND6_NS_REG_TIMER`, `UIP_ND6_ROUTER_LIFETIME`, `UIP_ND6_M_FLAG`, `UIP_ND6_O_FLAG`, table sizes): parameters; RFC 4861 and RFC 6775 fix the option types and lengths.
- `UIP_CONF_IPV6_CHECKS` is taken as 1 and the link-layer header length as 0; with the checks off, a zero-length option loops for ever.
- `UIP_CONF_IPV6_QUEUE_PKT` (queued packets sent from `na_input`, `ra_input`) and the RDNSS option (`UIP_ND6_RA_RDNSS`): not modelled.
- `uip_nd6_init`, `uip_nd6_update_icmp_checksum` as a separate routine, logging and statistics: not modelled; the checksum update is part of the builders.
- Pointers into `uip_buf` are indices and entry pointers are addresses: aliasing between the static pointers and a later message is captured by index, and a pointer to a removed entry is the `StalePointer` outcome, not a read of freed memory.
- Writes after `uip_ds6_nbr_rm` (`uip-nd6.c:631-634`, `659-661`): the entry is gone; the writes to the freed slot are not modelled.
- `nbr_table_remove` in `rpl_ipv6_neighbor_callback` (`rpl.c:389-394`): the neighbor's route list is not a table of this model; the neighbor's routes are those of the route list whose next hop is the neighbor, in routing-table order.
- `list_remove` (`lib/list.c`, not part of this model): whether it clears the removed item's next pointer is the parameter `clears`; both choices are proved.
- Multicast routes of `rpl_purge_routes` and `rpl_remove_routes` (`RPL_CONF_MULTICAST`): not modelled.
- `rpl_init`, `rpl_sourceinfo_init`, `rpl_sourceinfo_list_head`, `rpl_sourceinfo_list_next`: the class constructor gives the initial state; the accessors are the reads of `sources`.
- `RPL_LIFETIME` and the objective-function callbacks are not part of this model: the lifetime is `Rpl.RplLifetime`, a callback is an event.
- RplNode.Node.PurgeRoutes: requires a default instance whenever a route dies, because the source dereferences `default_instance` there (`rpl.c:215`); the NULL case is not modelled.
- RplNode.Node.Ipv6NeighborCallback: requires a default instance whenever a No-Path DAO is sent (`rpl.c:381`); the NULL case is not modelled.
- Nd6NsProps.NsSixLoRegisters: stated about the 6LoWPAN-ND tail after the option loop, because `ns_input` itself never reaches the branch (`NsAroSourceRegistered`).
- Nd6Engine.Stack.ProcessOptions, Nd6Walk.OptLoop, NdOptions.Walk: the option offset is an unbounded integer, the corrected form of the `uint8_t nd6_opt_offset` of `uip-nd6.c:127` (see Findings); the loop as written is `Nd6Walk.OptLoopAsWritten`, the same loop whenever the options end within 256 bytes of the body (`AsWrittenAgrees`); on longer chains these members do not capture the wrap.
- `uip_ext_len` is 0: no extension header precedes the ICMPv6 header of a message the handlers receive, so `uip_l3_icmp_hdr_len` is 44; the output routines set it to 0 themselves.
- `uip_ds6_nbr_get_ll(nbr)` before the NULL check in `na_input` (`uip-nd6.c:683-684`): `uip-ds6-nbr.c` is not part of this model; the call is taken to have no effect when the target has no entry, since its result is used only after the check, so such an NA is a plain discard.
- `is_registered_with_state` and `is_register_to_state` (`uip-nd6.c:358`, `392`, `628`, `641`, `839`, `1110`): both read the same per-neighbor registration state, the field `Nbr.reg`; the header defining them is not part of this model.
- Nd6Engine.Stack: the option cases and the post-loop parts of `ns_input` and `na_input` are applied through their specification functions (`OptionStep`, `NsClassic`, `NsSixLo`, `NaClassic`, `NaSixLo`); the builders store the packet their functions compute rather than writing byte by byte.

## Findings

| source | as written | input that shows it | evidently intended | confidence | as-written member | corrected member |
|---|---|---|---|---|---|---|
| core/net/ipv6/uip-nd6.c:127 | `nd6_opt_offset` is a `uint8_t`, so `nd6_opt_offset += len << 3` wraps at 256 | an NS with `uip_len` above 64 whose first option has an unknown type and length byte 32: the offset goes from 20 to 276 mod 256 = 20 and the loop reads the same option for ever; and no message longer than 299 bytes completes the loop (`Nd6Walk.AsWrittenNeverCompletes`) | an offset wide enough for any message in `uip_buf`, advancing by 8 * len each time | not executed | Nd6Walk.AsWrittenLoopsForEver | NdOptions.WalkBounded |
