# Calico: models and proofs

This project models the parts of Calico whose correctness is hardest to see from the code, and
proves properties of them for all inputs, runs and interleavings:

- the eBPF data plane: connection tracking, the approval of both ends of a flow, NAT, the cleanup
  of idle entries, connection limits, the packet-rate token bucket, IPv4 reassembly and the
  counter of lost events (`felix/bpf-gpl`);
- Felix's calculation graph: which policies and profiles are active, the lookup of network sets by
  address, and the throttled flush loop (`felix/calc`);
- Dikastes: the store it reads policy from, IP sets of CIDRs, the evaluation of tiers, policies,
  profiles and rules, and the normalisation of HTTP paths (`app-policy`).

Code that updates maps, objects or buffers in place is modelled by classes and methods with
loops, each proved equal to a function of its inputs or of the old state. The theorems are lemmas
about those functions and about the runs they make up. Nothing here executes Calico; `dafny verify
dfyconfig.toml` checks everything.

## How the files fit together

| files | what they hold |
|---|---|
| `ConntrackTypes`, `ConntrackLookup`, `ConntrackCreate` | the shared map and the functions of one packet |
| `ConntrackMap` | the same as a class that updates the map in place |
| `ConntrackVerdicts`, `ConntrackBooks` | what a lookup answers and what a packet leaves in the map, in plain terms |
| `ConntrackRuns`, `ConntrackFates`, `ConntrackNat` | runs, the fate of every packet, translation |
| `ConntrackCleanup`, `ConntrackReclaim`, `ConnLimit` | cleanup passes, what they reclaim, interleavings |
| `ConntrackExamples` | runs on which expected properties fail |
| `Fragments`, `FragmentRoundTrip` | storing and joining IPv4 fragments, and the round trip |
| `NetworkBitmap`, `IpTrie`, `IpNetSet` | IP sets: bitmap, trie as a value, trie on the heap |
| `PolicyStore` | the store and the swap of stores |
| `HttpPath`, `HttpSpelling`, `DotSegments` | paths, their spellings, dot segments |
| `RuleMatch`, `RuleMeaning` | rules, and what each criterion means |
| `CheckTiers`, `CheckMeaning` | policy evaluation, and what its status and trace mean |
| `ActiveRules`, `LongestPrefix`, `CalcLoop` | the calculation graph |
| `TokenBucket`, `DropCounter` | packet rates and lost events |

## What turned out not to hold as described

Each of these is a proved statement with its exact condition, and an input that shows it.

- A TCP packet that does not open a connection is not always kept from making or approving an
  entry: it does so if and only if it hits a forward NAT entry whose reverse entry is gone and the
  further conditions of `ConntrackRuns.MidFlowApprovalExactly` hold
  (`ConntrackExamples.ApprovedWithoutSyn`). It can even reach the branch that approves an earlier
  program's entry, which the comment at `felix/bpf-gpl/conntrack.h:154-156` rules out: exactly
  towards the host and for a backend whose entry exists (`ConntrackRuns.MidFlowReapprovesExactly`,
  `ConntrackExamples.ReapprovedWithoutSyn`).
- Between equal addresses, a port collision at a host endpoint can change the order of the ports
  after the legs were laid out (`ConntrackRuns.FlipsExactly`). The approval is then on the other
  end's leg (`ConntrackRuns.OwnLegApprovedExactly`, `ConntrackExamples.ApprovedOnTheWrongLeg`), and
  NAT translates only under the conditions in `ConntrackNat.RequestReachesBackend`,
  `ReplyReachesClient` and `RequestNotTurnedBack`.
- A SYN rejected by the ingress limit under a forward entry's own key sets the bit that would approve
  a leg, and in a forward entry that bit is one of the NAT source port: the pair then no longer
  translates (`ConntrackNat.CarriesStep`, `ConntrackNat.SmudgedRequest`).
- A forward entry can be filed over a reverse entry that another flow needs
  (`ConntrackRuns.LinkedExactly`, `ConntrackExamples.ForwardOverReverse`).
- A connection counter drifts when a SYN and its retransmission both win the check, as the comment
  at `felix/bpf-gpl/tc.c:1471-1477` says (`ConnLimit.CountsConnections`, `ConnLimit.CounterDrifts`);
  it never exceeds the limit and is always the admissions not given back
  (`ConnLimit.SlotsConserved`).
- Cleanup can remove a tracking entry that was just used, exactly if what its A-to-B leg has
  carried reads as the reverse key noted under its own key
  (`ConntrackCleanup.UsedEntryLostExactly`, `ConntrackCleanup.UsedEntryCanBeLost`).
- A prefix longer than the bitmap's depth but shorter than an address is stored in an IP set and
  never consulted (`IpTrie.MembershipExactly`, `IpTrie.NarrowPrefixIgnored`).
- A CIDR of an IPv4-mapped address with a mask over 32 is stored where no IPv4 address is looked up
  (`IpNetSet.NetSet.Contains`, `IpNetSet.MappedCidrIgnored`).
- A tier left to a default action of "allow" produces a trace that ends in an allow, and denies
  access (`CheckTiers.AllowByDefaultDeniesExactly`, `CheckTiers.AllowByDefaultDenies`); a status of
  OK always means a rule that allows (`CheckTiers.TraceExplainsStatus`).
- Normalising an HTTP path twice is the identity exactly if the result holds no "%", "?" or "#"
  (`HttpPath.RenormaliseExactly`, `HttpPath.RenormaliseCanChange`).
- Deleting a key from the network set trie drops a CIDR's only key without comparing it
  (`LongestPrefix.IpTrie.DeleteKey`, `LongestPrefix.DeleteOfAnotherKey`).
- The tokens of a bucket leave their range exactly when their sum with the narrowed refill does not
  fit in 16 bits (`TokenBucket.TokensInRangeExactly`, `TokenBucket.RefillCanWrap`); what is let through stays
  within the limit even then (`TokenBucket.AcceptedAtMostEarned`).

## Model

| member | source | states |
|---|---|---|
| `ConntrackTypes.KeyIsDirectionless` | felix/bpf-gpl/conntrack.h:58-94 | a packet and the reply to it have the same key and, unless self-paired, opposite orientations; key and orientation give the tuple back |
| `ConntrackTypes.KeyIdentifiesFlow` | felix/bpf-gpl/conntrack.h:58-94 | two tuples share a key only if they are the same or each other's reverse |
| `ConntrackLookup.TcpUpdateKeepsRoles` | felix/bpf-gpl/conntrack.h:554-611 | TCP bookkeeping never changes who opened or who approved a flow |
| `ConntrackLookup.LookupKeepsFlows` | felix/bpf-gpl/conntrack.h:689-1290 | no lookup, by any program and for any packet, creates an entry or changes who approved, who opened or what a surviving entry translates |
| `ConntrackLookup.VerdictMeansApproval` | felix/bpf-gpl/conntrack.h:1023-1098 | a hit is let through exactly if this endpoint's own leg is approved; bypass and confirmed mean that both are |
| `ConntrackLookup.MidFlowIsNewOnlyIfDangling` | felix/bpf-gpl/conntrack.h:839-850 | a TCP packet other than an initial SYN gets a NEW verdict exactly on a forward entry whose reverse entry is missing |
| `ConntrackLookup.StampFirst` | felix/bpf-gpl/conntrack.h:816-836 | stamping the entry before the other updates gives the same entry and the same verdict as doing all at once |
| `ConntrackVerdicts.NewExactly` | felix/bpf-gpl/conntrack.h:808-850 | for every table, program and packet: the verdict is NEW exactly on a forward entry whose reverse entry is gone, or for a SYN or a packet without TCP whose flow is not tracked, starts afresh or is not approved by the own end |
| `ConntrackVerdicts.MidFlowMissExactly` | felix/bpf-gpl/conntrack.h:1282-1289 | a mid-flow miss is exactly TCP other than a SYN whose key is missing, towards the host or unknown to Linux |
| `ConntrackVerdicts.InvalidExactly` | felix/bpf-gpl/conntrack.h:1067-1098 | invalid is exactly TCP other than a SYN of a tracked flow that goes on and that the own end has not approved |
| `ConntrackVerdicts.DnatExactly` | felix/bpf-gpl/conntrack.h:839-953 | destination NAT is exactly an approved hit through a forward entry towards the host, or of ICMP |
| `ConntrackVerdicts.SnatExactly` | felix/bpf-gpl/conntrack.h:955-993 | source NAT is exactly an approved hit on a reverse entry, away from the host and towards the opener, or of ICMP |
| `ConntrackVerdicts.BypassExactly` | felix/bpf-gpl/conntrack.h:995-1022 | bypass is exactly a hit on an entry without NAT that both ends have approved |
| `ConntrackVerdicts.EstablishedExactly` | felix/bpf-gpl/conntrack.h:1023-1098 | established is exactly every other approved hit, and away from the host a miss that Linux knows |
| `ConntrackVerdicts.FindingsExactly` | felix/bpf-gpl/conntrack.h:1154-1225 | what else the program is told of a tracked flow: whether the reverse path check failed, whether the packet is a SYN, whether the other end is a workload and by which interface its packets come, and the flags |
| `ConntrackBooks.TcpFlagsExactly` | felix/bpf-gpl/conntrack.h:554-611 | on any legs and header: a SYN is noted of a SYN-ACK that answers, an acknowledgement of one that answers on a leg with a SYN, a FIN always; the other leg loses at most its memory of a reset |
| `ConntrackBooks.RstForgottenExactly` | felix/bpf-gpl/conntrack.h:586-611 | a remembered reset is forgotten exactly by a packet outside the handshake once the other side has acknowledged |
| `ConntrackBooks.HandshakeExactly` | felix/bpf-gpl/conntrack.h:554-611 | from a SYN, the second and third packet complete both legs exactly if each acknowledges the other sequence number |
| `ConntrackBooks.ReleaseExactly` | felix/bpf-gpl/conntrack.h:637-687 | an entry gives back, once, exactly the slots it holds: of the responder interface if it was counted in and not rejected, of the opener interface if it was counted out |
| `ConntrackBooks.GivenBackExactly` | felix/bpf-gpl/conntrack.h:845-870 | for every lookup: slots are given back exactly when the second FIN is seen or the flow starts afresh, if they have not been, and a reset gives back none |
| `ConntrackBooks.LookupTouches` | felix/bpf-gpl/conntrack.h:816-870 | a lookup stamps the entry of the flow and the forward entry it went through, removes what starts afresh or dangles, and touches nothing else |
| `ConntrackBooks.CountsExactly` | felix/bpf-gpl/conntrack.h:1227-1250 | exactly the leg of the sender counts the packet and its bytes, once on its way |
| `ConntrackBooks.InterfacesExactly` | felix/bpf-gpl/conntrack.h:1154-1215 | the recorded interface is kept, taken over or forgotten as the direction and the reverse path check say; that of the other leg is kept |
| `ConntrackBooks.ResetTimeExactly` | felix/bpf-gpl/conntrack.h:1111-1134 | the time noted for a reset is that of the last one, and is forgotten after two minutes, on a clock that wraps |
| `ConntrackBooks.NewEntryExactly` | felix/bpf-gpl/conntrack.h:176-278 | a new entry field by field: who opened it, who approves it and who is a workload, its first packet, its interface, and nothing known of the other side |
| `ConntrackBooks.ApproveSeenExactly` | felix/bpf-gpl/conntrack.h:124-170 | approving the entry of an earlier program approves the own end, notes the SYN of the sender, and changes nothing else |
| `ConntrackBooks.FiledExactly` | felix/bpf-gpl/conntrack.h:280-319 | for every table and flow: which key a flow is filed under, what is there afterwards, and when it fails |
| `ConntrackBooks.ForwardExactly` | felix/bpf-gpl/conntrack.h:321-366 | which key a forward entry is filed under and what it names, with or without a replaced port |
| `ConntrackBooks.NewFlowExactly` | felix/bpf-gpl/tc.c:516-552 | which packets open a NATted flow, to which tuple, and which are counted out |
| `ConntrackBooks.IngressMarksExactly` | felix/bpf-gpl/tc.c:1480-1515 | under the limit a flow is counted in, over it rejected with the end of the workload approved; nothing else of the entry changes |
| `ConntrackBooks.IngressChecksExactly` | felix/bpf-gpl/tc.c:1446-1480 | exactly a SYN that policy allows into a limited workload and whose flow is not counted is checked, and marks only the entry of its own key |
| `ConntrackMap.CtMap.CtLookup` | felix/bpf-gpl/conntrack.h:689-1290 | the lookup that updates the map in place leaves the table, returns the verdict and gives back the counters of the lookup function |
| `ConntrackMap.CtMap.CreateTracking` | felix/bpf-gpl/conntrack.h:104-319 | insertion with up to three new source ports equals taking the first one that is free, and failing if none is |
| `ConntrackMap.CtMap.CtCreate` | felix/bpf-gpl/conntrack.h:1293-1321 | creating an entry or a NAT pair in place gives the table and tuple of the creation function |
| `ConntrackCreate.FirstFree` | felix/bpf-gpl/conntrack.h:280-314 | the port found is the first of those drawn whose key is not taken |
| `ConntrackRuns.ActApproves` | felix/bpf-gpl/tc.c:364-863 | after the lookup a program approves a leg only if the packet was put to policy and not denied, passed the reverse path check, and belongs to the flow at that end |
| `ConntrackRuns.StepApproves` | felix/bpf-gpl/tc.c:364-863 | one packet through any program, or entries going, approves a leg only if its own end accepted the packet at that step |
| `ConntrackRuns.ApprovedOnlyIfAccepted` | felix/bpf-gpl/conntrack.h:157-278 | over every run from an empty map of packets through all programs, with entries vanishing at any time: behind every approved leg there is a step of the run at which its own end accepted a packet of the flow or skipped its policy, and the leg has been in the map and approved ever since |
| `ConntrackRuns.FlipsExactly` | felix/bpf-gpl/conntrack.h:280-314 | exactly when a replacement source port changes the order of the two ends: at a host endpoint, on a collision between equal addresses, with the first free port on the other side of the destination port |
| `ConntrackRuns.OwnLegApprovedExactly` | felix/bpf-gpl/conntrack.h:157-278 | a new entry's approval is on the leg of the end that accepted the flow, and on no other, if and only if no replacement port flips the ends |
| `ConntrackRuns.LinkedExactly` | felix/bpf-gpl/conntrack.h:321-366 | filing a forward entry over whatever is under its key leaves forward entries naming tracking entries if and only if that key is neither its own tracking entry's nor one that a forward entry names |
| `ConntrackRuns.MidFlowAddsNoApproval` | felix/bpf-gpl/conntrack.h:1067-1098 | a TCP packet that opens nothing never adds an approval, unless it hits a dangling forward entry |
| `ConntrackRuns.MidFlowApprovalExactly` | felix/bpf-gpl/conntrack.h:839-850 | for every such packet, with or without a backend and whoever has seen it: it adds an approval if and only if the hit is dangling, policy and limits let it in, and it gets a free key or meets an entry that its end had not approved |
| `ConntrackRuns.MidFlowReapprovesExactly` | felix/bpf-gpl/conntrack.h:130-170 | such a packet reaches the branch that approves an earlier program's entry exactly towards the host, seen before, for a backend whose entry exists |
| `ConntrackFates.OneCase` | felix/bpf-gpl/tc.c:364-863 | every packet is in exactly one of four cases, each with its fate: it starts a flow, continues one, is stray, or is of a flow not approved |
| `ConntrackFates.ForwardedExactly` | felix/bpf-gpl/tc.c:364-863 | for every valid step: the packet is forwarded exactly if the reverse path check held, no limit stopped it, and it opens a flow that policy let in and that got an entry, or continues one its own end had approved, or is of one that only Linux knows |
| `ConntrackFates.NewFlowFate` | felix/bpf-gpl/tc.c:1568-1793 | a packet that opens a flow is dropped if it came the wrong way, policy denies it, a limit is reached, the flow may not be tracked or no key is left, and is forwarded with the tuple of the flow otherwise |
| `ConntrackFates.ContinuingFate` | felix/bpf-gpl/tc.c:1397-1549 | a packet of an approved flow is forwarded as the lookup translates it, unless it came the wrong way or is a SYN that policy denies or the ingress limit rejects, and is dropped then |
| `ConntrackFates.StrayFate` | felix/bpf-gpl/tc.c:364-863 | TCP other than a SYN without an entry falls through towards the host, and is dropped away from it, unless Linux knows it or the host endpoint has no policy |
| `ConntrackFates.UnapprovedFate` | felix/bpf-gpl/tc.c:364-863 | TCP other than a SYN of a flow the own end has not approved falls through where it comes in from a host endpoint the right way, and is dropped elsewhere |
| `ConntrackFates.PlainTuple` | felix/bpf-gpl/tc.c:1397-1549 | a packet that needs no translation leaves with its own tuple |
| `ConntrackFates.SetUpFate` | felix/bpf-gpl/tc.c:1568-1793 | the packet that sets up a NATted flow leaves with the tuple of the backend, and with a replacement port if it got one |
| `ConntrackFates.RoundTripFates` | felix/bpf-gpl/tc.c:1397-1549 | over the same runs as the round trip, what no check, limit or policy stops: requests are forwarded with the tuple of the backend, at the backend unchanged, and replies with the original tuple reversed |
| `ConntrackExamples.ApprovedWithoutSyn` | felix/bpf-gpl/conntrack.h:839-850 | a run of three steps, SYN, eviction of the reverse entry and ACK, that ends with an approval it did not have before the ACK |
| `ConntrackExamples.ApprovedOnTheWrongLeg` | felix/bpf-gpl/conntrack.h:280-314 | a port draw that puts the approval on the leg of the other end |
| `ConntrackExamples.ReapprovedWithoutSyn` | felix/bpf-gpl/conntrack.h:130-170 | a run of four steps from an empty map whose last packet, without SYN, approves an earlier program's entry |
| `ConntrackExamples.ForwardOverReverse` | felix/bpf-gpl/conntrack.h:355-366 | a frontend that is also a backend: the second flow's forward entry replaces the first flow's reverse entry |
| `ConntrackNat.CreateCarries` | felix/bpf-gpl/conntrack.h:176-366 | creating a pair, with or without a new port, leaves a forward and a reverse entry that belong together |
| `ConntrackNat.RequestReachesBackend` | felix/bpf-gpl/conntrack.h:839-993 | the request becomes the backend's tuple exactly under the stated condition on the order of the legs and on port zero |
| `ConntrackNat.ReplyReachesClient` | felix/bpf-gpl/conntrack.h:839-993 | the reply is turned back exactly if the legs match the key's order, and then into the client's own tuple reversed, unless port zero is involved |
| `ConntrackNat.RequestNotTurnedBack` | felix/bpf-gpl/conntrack.h:955-993 | a request that meets the reverse entry again is left alone exactly if the legs match the key's order |
| `ConntrackNat.CarriesStep` | felix/bpf-gpl/tc.c:364-863 | every step of a run, by any program and for any packet, leaves a pair translating the same way while both entries last and nothing is filed over the forward one, if and only if no rejection by the ingress limit writes into the forward entry |
| `ConntrackNat.SmudgedRequest` | felix/bpf-gpl/tc.c:1491-1515 | after such a rejection, requests leave with a source port that is off by 16 |
| `ConntrackNat.BackendApproves` | felix/bpf-gpl/conntrack.h:130-170 | the opening packet at the backend's own program disturbs nothing, and afterwards both ends have approved the flow |
| `ConntrackNat.SetUpCarries` | felix/bpf-gpl/conntrack.h:176-366 | a client's packet answered NEW and let in leaves a pair for its own tuple and the backend's |
| `ConntrackNat.NatRoundTrip` | felix/bpf-gpl/tc.c:1010-1175 | reverse NAT undoes forward NAT: a packet sets up the flow, with its own or a replacement port; then, after any run of any packets through the programs that leaves the pair in the map, requests reach the backend, replies come back as the original tuple reversed, and a request is not turned back |
| `ConntrackCleanup.LegAsKeyExactly` | felix/bpf-gpl/conntrack_types.h:126-150 | what the byte count, packet count and sequence number of a tracking entry must be for its bytes to read as a given reverse key |
| `ConntrackCleanup.ShortLegReadsAsNoKey` | felix/bpf-gpl/conntrack_types.h:72-84 | a leg that carried less than four gigabytes reads as no key with an address |
| `ConntrackCleanup.Cleaner.Process` | felix/bpf-gpl/conntrack_cleanup.c:35-79 | one item is always consumed, removes exactly the doomed keys, counts them and gives back exactly their limits |
| `ConntrackCleanup.Cleaner.Pass` | felix/bpf-gpl/conntrack_cleanup.c:35-79 | a pass empties the queue in some order, each item once, counts every entry removed, and gives back what its items do in turn |
| `ConntrackCleanup.PassRemovesOnlyIdle` | felix/bpf-gpl/conntrack_cleanup.c:35-79 | whatever the queue and its order, a pass removes an entry only if its stamp is one noted for it, or together with the reverse entry its bytes name, whose stamp is |
| `ConntrackCleanup.ForwardGoesWithReverse` | felix/bpf-gpl/conntrack_cleanup.c:53-79 | over a whole pass, a forward entry that moved goes only together with the reverse entry it names, and only if that did not move |
| `ConntrackCleanup.UsedEntryLostExactly` | felix/bpf-gpl/conntrack_cleanup.c:53-79 | when a pass removes a tracking entry used after the snapshot: exactly if its counters read as the reverse key noted under its own key and that idle entry is still there when the item comes up |
| `ConntrackCleanup.UsedEntrySurvives` | felix/bpf-gpl/conntrack_cleanup.c:35-79 | with items processed in any order and any packets in between, an entry used after the snapshot outlives the cleanup, as long as packets spare it and the item at its own key does not mistake it |
| `ConntrackCleanup.ForwardNeverMistaken` | felix/bpf-gpl/conntrack_cleanup.c:53-79 | a used forward entry that packets spare stays one, and no item ever mistakes it |
| `ConntrackCleanup.HitPairOutlivesPass` | felix/bpf-gpl/conntrack.h:816-865 | a hit on a forward entry stamps both halves, so that each half packets spare outlives the cleanup of any earlier snapshot: the forward half always, the reverse half unless its own item mistakes it |
| `ConntrackCleanup.SentCounts` | felix/bpf-gpl/conntrack.h:1240-1250 | any number of packets of a settled TCP flow adds to its counts and changes nothing else |
| `ConntrackCleanup.UsedEntryCanBeLost` | felix/bpf-gpl/conntrack_cleanup.c:53-79 | a connection that, past its handshake, has sent 906715319 packets and is removed however recent the last one |
| `ConntrackReclaim.RemovedExactly` | felix/bpf-gpl/conntrack_cleanup.c:35-103 | whatever the table, the queue and its order, a pass removes an entry exactly if some item noted it alone with the stamp it has, or noted a pair it is part of that is idle at the turn of that item |
| `ConntrackReclaim.IdleEntryGoes` | felix/bpf-gpl/conntrack_cleanup.c:43-51 | an entry noted by itself that has not moved does not outlive the pass |
| `ConntrackReclaim.IdlePairGoes` | felix/bpf-gpl/conntrack_cleanup.c:53-75 | neither half of a noted pair outlives the pass if at its turn the reverse entry is there and has not moved and the forward entry names it or is gone |
| `ConntrackReclaim.PairGoesExactly` | felix/bpf-gpl/conntrack_cleanup.c:53-75 | a pair that only its own item is about goes, both halves and in every order, exactly if the reverse entry has not moved and the forward entry names it or is gone |
| `ConntrackReclaim.ReturnedExactly` | felix/bpf-gpl/conntrack_cleanup.c:45-67 | of every counter a pass gives back exactly one slot for each removed tracking entry that holds one, but for entries mistaken for a forward entry |
| `ConntrackReclaim.AlongIsMistaken` | felix/bpf-gpl/conntrack_cleanup.c:55-63 | the only tracking entries that keep their slots are those whose leg reads as the noted reverse key |
| `ConnLimit.StepKeeps` | felix/bpf-gpl/conntrack.h:637-687 | each atomic step of any CPU, among them check, stamp, claim and decrement, keeps claims exclusive, flags standing for admissions and counters exact |
| `ConnLimit.SlotsConserved` | felix/bpf-gpl/qos.h:195-269 | under every interleaving, checks and stamps apart, each direction of a connection gives back at most one admission, its own, and each limited counter is exactly the admissions not given back, never above the limit |
| `ConnLimit.CountsConnections` | felix/bpf-gpl/tc.c:1446-1517 | if no connection was admitted twice, the counter is the number of connections admitted and not given back |
| `ConnLimit.RoomExactly` | felix/bpf-gpl/qos.h:195-240 | after any run a limited counter admits exactly if fewer admissions than its limit are outstanding |
| `ConnLimit.ChecksExactly` | felix/bpf-gpl/tc.c:1446-1517 | a check, of a tracked SYN or of a new connection, admits exactly if there is room |
| `ConnLimit.ClaimExactly` | felix/bpf-gpl/conntrack.h:637-687 | the CPU that finds a counted connection unclaimed is to give back exactly the directions counted, less a rejected ingress; any other gives back nothing |
| `ConnLimit.GiveExactly` | felix/bpf-gpl/conntrack.h:660-687 | each turn gives back one admission that was not given back before, until none is left |
| `ConnLimit.CounterDrifts` | felix/bpf-gpl/tc.c:1471-1477 | a run in which a SYN and its retransmission both win the check, and the counter stays at one when the connection has closed |
| `TokenBucket.Qos.Enforce` | felix/bpf-gpl/qos.h:102-133 | the bucket updated in place follows the step function, with its 16-bit and 64-bit arithmetic |
| `TokenBucket.AcceptedAtMostEarned` | felix/bpf-gpl/qos.h:102-133 | for packets at any nondecreasing times, those let through number at most the burst plus what the rate earned since the first, even if the arithmetic overflows |
| `TokenBucket.PassExactly` | felix/bpf-gpl/qos.h:102-133 | a bucket in range is filled by exactly what was earned, up to the burst, lets a packet through exactly if it then has a token, and keeps time that earned nothing |
| `TokenBucket.FirstPassExactly` | felix/bpf-gpl/qos.h:102-110 | the first packet finds a full bucket |
| `TokenBucket.BurstAccepted` | felix/bpf-gpl/qos.h:102-133 | while tokens last every packet is let through, however close together |
| `TokenBucket.SpacedAccepted` | felix/bpf-gpl/qos.h:102-133 | packets spaced at the rate are all let through |
| `TokenBucket.TokensInRangeExactly` | felix/bpf-gpl/qos.h:110-123 | tokens stay between zero and the burst exactly when the sum of the tokens and the narrowed refill fits in 16 bits |
| `TokenBucket.RefillCanWrap` | felix/bpf-gpl/qos.h:110-123 | a refill that takes the tokens below zero and drops the packet |
| `DropCounter.StepConserves` | felix/bpf-gpl/ringbuf.h:51-127 | no atomic step of any CPU loses or invents a drop |
| `DropCounter.DropsConserved` | felix/bpf-gpl/ringbuf.h:51-127 | for any number of CPUs and any interleaving, drops bumped are those reported, stored and in flight; between events none is in flight |
| `DropCounter.FlushStartsExactly` | felix/bpf-gpl/ringbuf.h:64-73 | an event that gets through starts a flush exactly if the last one was at least five seconds ago |
| `DropCounter.FlushReports` | felix/bpf-gpl/ringbuf.h:75-104 | a flush takes the whole count and, whatever other CPUs do meanwhile, reports exactly that or is left to put it back |
| `DropCounter.RestorePutsBack` | felix/bpf-gpl/ringbuf.h:91-98 | what could not be reported is added back |
| `Fragments.Reassembler.Handle` | felix/bpf-gpl/ip_v4_fragment.h:220-322 | a fragment handled in place has the outcome and leaves the maps of the handling function, which the round trip runs over |
| `Fragments.Reassembler.RecordCt` | felix/bpf-gpl/ip_v4_fragment.h:324-372 | a first fragment on its way records its datagram as in order |
| `Fragments.Reassembler.Save` | felix/bpf-gpl/ip_v4_fragment.h:265-321 | the storing loop writes the fragment's chunks as the function does |
| `Fragments.Reassembler.TryAssemble` | felix/bpf-gpl/ip_v4_fragment.h:126-203 | a datagram comes out exactly if the stored chain is complete, and then its chunks are gone |
| `Fragments.Reassembler.CopyOut` | felix/bpf-gpl/ip_v4_fragment.h:84-124 | copying and deleting chunk by chunk yields the chain's data and removes exactly its keys |
| `FragmentRoundTrip.SavingAdds` | felix/bpf-gpl/ip_v4_fragment.h:265-321 | storing a fragment, new or repeated, adds exactly its chunks and touches no other datagram |
| `FragmentRoundTrip.BrokenChain` | felix/bpf-gpl/ip_v4_fragment.h:126-203 | with any fragment missing the chain breaks off |
| `FragmentRoundTrip.RoundTrip` | felix/bpf-gpl/ip_v4_fragment.h:84-322 | over the two maps, for any payload, any split and any arrival order with repeats and other traffic: once a datagram is known to be out of order, or if the first fragment to come is not the one at offset 0, every fragment is held back but for exactly the original payload, exactly when the last missing fragment arrives in a packet that can grow (section 3.2 of RFC 791) |
| `FragmentRoundTrip.RoundTripFromEmpty` | felix/bpf-gpl/ip_v4_fragment.h:220-322 | the same from empty maps, if the first fragment to come is not the one at offset 0 |
| `FragmentRoundTrip.InOrderGoesOn` | felix/bpf-gpl/ip_v4_fragment.h:237-247 | once a datagram is recorded as in order, every fragment goes on, and nothing of it is stored or removed |
| `FragmentRoundTrip.InOrderFromEmpty` | felix/bpf-gpl/ip_v4_fragment.h:220-247 | from empty maps, with the fragment at offset 0 first and recorded: every fragment goes on and none is ever stored |
| `FragmentRoundTrip.OtherLeavesAlone` | felix/bpf-gpl/ip_v4_fragment.h:220-322 | fragments of other datagrams change neither the chunks nor the record of this one |
| `FragmentRoundTrip.WithoutLoop` | felix/bpf-gpl/ip_v4_fragment.h:220-260 | a kernel without bpf_loop lets exactly first fragments through and keeps nothing |
| `FragmentRoundTrip.TooManyChunks` | felix/bpf-gpl/ip_v4_fragment.h:126-203 | a fully stored datagram can be joined exactly if it has at most 16 chunks |
| `NetworkBitmap.SetAtContains` | app-policy/policystore/ipset.go:280-294 | setting or clearing one index changes that index and no other |
| `NetworkBitmap.SameContentsSameBitmap` | app-policy/policystore/ipset.go:144-146 | a bitmap is determined by the indices it contains |
| `NetworkBitmap.EmptyExactly` | app-policy/policystore/ipset.go:270-278 | the emptiness test is true exactly if no index is contained |
| `IpTrie.InsertStores` | app-policy/policystore/ipset.go:189-213 | inserting stores the prefix and leaves every other one as it was |
| `IpTrie.RemoveStores` | app-policy/policystore/ipset.go:215-252 | removing forgets the prefix and leaves every other one as it was |
| `IpTrie.ContainsExactly` | app-policy/policystore/ipset.go:254-268 | an address is found exactly if a consulted prefix of it, or the address itself, is stored |
| `IpTrie.Canonical` | app-policy/policystore/ipset.go:189-252 | two tries of the proper shape that store the same prefixes are equal |
| `IpTrie.ReplayStores` | app-policy/policystore/ipset.go:189-252 | after any run of adds and removes exactly the live prefixes are stored |
| `IpTrie.MembershipExactly` | app-policy/policystore/ipset.go:189-300 | after any run an address is a member exactly if it is live itself or some live prefix no longer than the address less eight bits covers it |
| `IpTrie.NarrowPrefixIgnored` | app-policy/policystore/ipset.go:254-268 | a prefix that leaves one to seven bits is stored, and no address is found for it; a /28 for one |
| `IpTrie.ShapeOfLivePrefixes` | app-policy/policystore/ipset.go:189-252 | the trie depends only on the live prefixes, not on the history |
| `IpTrie.AddRemoveRestores` | app-policy/policystore/ipset.go:189-252 | adding and removing a prefix that was not live restores the same trie; with nothing live only the root remains |
| `IpNetSet.LastByteOfAddress` | app-policy/policystore/ipset.go:296-300 | reading an address bit by bit, the last eight bits are its last byte |
| `IpNetSet.TrieNode.Insert` | app-policy/policystore/ipset.go:189-213 | insertion on the heap gives the value trie's insertion, and keeps the nodes a tree |
| `IpNetSet.TrieNode.Remove` | app-policy/policystore/ipset.go:215-252 | removal on the heap, with pruning, gives the value trie's removal |
| `IpNetSet.TrieNode.ContainsIP` | app-policy/policystore/ipset.go:254-268 | the walk finds what the value trie contains |
| `IpNetSet.NetSet.Add` | app-policy/policystore/ipset.go:148-158 | a CIDR joins the trie of its family, which holds the replay of everything filed in it |
| `IpNetSet.NetSet.Remove` | app-policy/policystore/ipset.go:160-170 | the same for a removal |
| `IpNetSet.NetSet.Contains` | app-policy/policystore/ipset.go:172-187 | after any adds and removes, exactly the addresses that a live CIDR filed under their own family covers, if it is a whole address or leaves eight bits |
| `IpNetSet.AddedExactly` | app-policy/policystore/ipset.go:148-187 | adding a CIDR adds exactly the addresses of its family that share its first bits, if it is a whole address or leaves eight bits |
| `IpNetSet.AddressByBytes` | app-policy/policystore/ipset.go:296-300 | an address is read byte by byte, the most significant bit first |
| `IpNetSet.MappedCidrIgnored` | app-policy/policystore/ipset.go:148-187 | a CIDR with a mask over 32, also one of an IPv4-mapped address, never makes an IPv4 address a member |
| `PolicyStore.Store.ProcessUpdate` | app-policy/policystore/process.go:28-62 | each message changes the store in place as applying it to the store's value does, with missing ids, unknown sets and types ignored |
| `PolicyStore.Store.ProcessIpSet` | app-policy/policystore/process.go:68-115 | a full update replaces a set, a delta adds and then removes members of a known set, a removal forgets it |
| `PolicyStore.LastWord` | app-policy/policystore/process.go:117-245 | after any messages a profile, policy, account, namespace or endpoint is there exactly if the last message about it put it there, and is what that message said |
| `PolicyStore.SetExactly` | app-policy/policystore/process.go:68-115 | an IP set is there exactly if it was last updated and not removed, with the type it then had |
| `PolicyStore.MembersExactly` | app-policy/policystore/process.go:68-115 | and has exactly the members that an update or a delta brought in and no later delta took out; a delta that does both takes out |
| `PolicyStore.Manager.Process` | app-policy/policystore/store.go:112-125 | an update goes to a store that exists, and readers still see the replay of the latest epoch in sync |
| `PolicyStore.Manager.OnReconnecting` | app-policy/policystore/store.go:137-148 | a reconnection changes nothing that readers see |
| `PolicyStore.Manager.OnInSync` | app-policy/policystore/store.go:150-166 | the first in-sync of an epoch makes its replay visible; a repeated one changes nothing |
| `PolicyStore.Manager.Read` | app-policy/policystore/store.go:99-108 | after every run of calls, readers see the replay onto an empty store of the latest epoch that reached in-sync |
| `PolicyStore.UnsyncedInvisible` | app-policy/policystore/store.go:112-166 | updates of an unsynced epoch stay invisible until its in-sync, and then all of them show |
| `PolicyStore.ReconnectStartsAfresh` | app-policy/policystore/store.go:137-166 | after a reconnection the next in-sync shows exactly the new updates and nothing older |
| `HttpPath.NormalisedIsPlain` | app-policy/checker/match.go:400-448 | every normalised path is rooted and made of segments that are not empty, "." or "..", and hold no ";", backslash, NUL or surviving escape of ".", "/" or backslash |
| `HttpPath.RenormaliseExactly` | app-policy/checker/match.go:400-448 | normalising again is the identity exactly if the path holds no "%", "?" or "#" |
| `HttpPath.RenormaliseCanChange` | app-policy/checker/match.go:400-448 | a path that normalising twice changes |
| `HttpSpelling.DecodesToItself` | app-policy/checker/match.go:408-411 | however a text is percent-encoded, with digits of either case, it decodes to itself |
| `HttpSpelling.DecodedIsSpelt` | app-policy/checker/match.go:408-411 | what decodes to a text is one of its encodings |
| `HttpSpelling.EncodingsAlike` | app-policy/checker/match.go:400-448 | two encodings of one path normalise alike |
| `HttpSpelling.QueryIgnored` | app-policy/checker/match.go:401-404 | a query or fragment makes no difference |
| `HttpSpelling.SlashesNormaliseAlike` | app-policy/checker/match.go:426-433 | paths that differ only in the lean of their slashes normalise alike |
| `HttpSpelling.ParametersIgnored` | app-policy/checker/match.go:456-478 | a segment loses what follows its first semicolon |
| `HttpSpelling.StrippedByParts` | app-policy/checker/match.go:456-478 | each segment is stripped by itself and the slashes are kept |
| `HttpSpelling.RefusedExactly` | app-policy/checker/match.go:400-436 | a path is refused exactly if what precedes its query is no encoding, does not start with a slash, or decodes to a text with a NUL or another encoded dot or slash |
| `HttpPath.StripMatrixParams` | app-policy/checker/match.go:456-478 | the index loop is split, cut at ";" and join |
| `HttpPath.PrefixMatchExactly` | app-policy/checker/match.go:484-492 | a prefix matches exactly if its segments are a prefix of the request's segments |
| `HttpPath.MatchHttpPaths` | app-policy/checker/match.go:328-380 | a rule's paths match exactly if one covers the request segment by segment; a path that is not absolute is invalid data |
| `DotSegments.CleanIsRemoveDots` | app-policy/checker/match.go:443-447 | cleaning any rooted path is the remove-dot-segments algorithm of section 5.2.4 of RFC 3986 on the path with repeated slashes collapsed, less a trailing slash |
| `RuleMatch.MatchNet` | app-policy/checker/match.go:662-687 | an address matches exactly if some CIDR holds it with no malformed CIDR before that one, or there is none to match |
| `RuleMatch.MatchNotNet` | app-policy/checker/match.go:691-716 | an address is not excluded exactly if no CIDR is malformed and none holds it |
| `RuleMatch.MatchIpSetsAll` | app-policy/checker/match.go:545-552 | true exactly if no known set lacks the value; unknown sets do not count |
| `RuleMatch.MatchIpSetsNotAny` | app-policy/checker/match.go:557-564 | true exactly if no known set holds the value |
| `RuleMatch.RequestCache.GetIdentity` | app-policy/checker/requestcache.go:145-163 | the memoised identity is always the one a direct read would give |
| `RuleMatch.RequestCache.GetKey` | app-policy/checker/requestcache.go:166-213 | the memoised address and port key is always the one a direct read would give |
| `RuleMatch.RequestCache.MatchPort` | app-policy/checker/match.go:568-646 | a port matches exactly if it is listed, by range or by name, or nothing is, and is not excluded |
| `RuleMatch.RequestCache.Match` | app-policy/checker/match.go:88-122 | criteria in order of cost, each cutting off the rest, through memoised reads, give the answer of all criteria read directly |
| `RuleMeaning.RuleExactly` | app-policy/checker/match.go:88-122 | a rule applies exactly if its protocol, each end, its sets of addresses and ports and its HTTP part do, each taken alone |
| `RuleMeaning.EndExactly` | app-policy/checker/match.go:88-155 | what it asks of one end is met exactly if its ports, networks, IP sets and identity are, each taken alone |
| `RuleMeaning.ProtocolExactly` | app-policy/checker/match.go:729-766 | a protocol alone: by name in any case, by number, and negated |
| `RuleMeaning.NetsExactly` | app-policy/checker/match.go:649-716 | networks alone: those of their own end, with malformed ones ending the search |
| `RuleMeaning.PortsExactly` | app-policy/checker/match.go:568-646 | ports alone: those of their own end, by range or by name, and negated |
| `RuleMeaning.SetsExactly` | app-policy/checker/match.go:496-564 | IP sets alone: of the address of their own end, and negated; missing sets have no say |
| `RuleMeaning.PortSetsExactly` | app-policy/checker/match.go:513-526 | sets of addresses and ports alone: of the destination |
| `RuleMeaning.AccountsExactly` | app-policy/checker/match.go:187-229 | accounts alone: by name and by selector over the labels of the flow and of the account |
| `RuleMeaning.NamespaceSelectorExactly` | app-policy/checker/match.go:156-179 | a namespace selector alone looks at the labels of the namespace of the account |
| `RuleMeaning.OwnNamespaceExactly` | app-policy/checker/match.go:156-179 | without one, a namespaced policy that selects its peers means those of its own namespace |
| `RuleMeaning.OwnNamespaceAccountsExactly` | app-policy/checker/match.go:156-229 | the same for accounts |
| `RuleMeaning.NoPrincipalMeetsAll` | app-policy/checker/match.go:187-270 | an end that shows no principal meets every such criterion |
| `RuleMeaning.MethodsExactly` | app-policy/checker/match.go:288-316 | HTTP methods alone, with "*" for any |
| `RuleMeaning.PathsExactly` | app-policy/checker/match.go:328-380 | HTTP paths alone: the normalised request is the path, or goes on below it after a slash |
| `CheckTiers.CheckRules` | app-policy/checker/check.go:325-338 | the loop returns the verdict of the rule list |
| `CheckTiers.FirstDecides` | app-policy/checker/check.go:325-338 | the first rule that applies and does more than log settles the verdict, whatever follows |
| `CheckTiers.CheckTier` | app-policy/checker/check.go:187-266 | the inner loop gives the tier's outcome, and the entry for the default action is never missing |
| `CheckTiers.CheckProfiles` | app-policy/checker/check.go:268-296 | the first profile with a verdict decides, unknown profiles are passed over, and none means denied |
| `CheckTiers.Check` | app-policy/checker/check.go:178-297 | the loop nest, with one memoised request, gives the status and trace of the evaluation function, panics on bad data included |
| `CheckTiers.Evaluate` | app-policy/checker/check.go:127-135 | a trace is returned exactly if the evaluation was completed |
| `CheckTiers.StagedInvisible` | app-policy/checker/check.go:187-266 | enforced-only evaluation gives the status and trace of full evaluation with all staged policies deleted |
| `CheckTiers.AllStagedTierIsAbsent` | app-policy/checker/check.go:196-260 | a tier with only staged policies, anywhere in the list, is as good as absent, its default action included |
| `CheckTiers.TraceExplainsStatus` | app-policy/checker/check.go:178-297 | the status is OK exactly if the trace ends in a rule that allows; every earlier entry passes; tiers appear in order, each at most once |
| `CheckMeaning.GrantedExactly` | app-policy/checker/check.go:178-364 | for every endpoint, store and request: access is granted exactly if a rule of a policy or profile, in the direction of the request, is reached, applies and reads "allow" in any case, every earlier rule of its list not applying or reading "log"; and then the trace ends with that rule |
| `CheckMeaning.DeniedByRule` | app-policy/checker/check.go:178-364 | such a rule that reads "deny", or in a profile "pass" or "next-tier", denies access and ends the trace as a deny; one that passes in a tier is in the trace as a pass |
| `CheckMeaning.DeniedExactly` | app-policy/checker/check.go:178-297 | access is denied exactly by such a rule, by a tier left to a default action other than "Pass", or if no profile has a say |
| `CheckMeaning.StatusExactly` | app-policy/checker/check.go:178-297 | each status, the errors included, holds exactly if a step of the evaluation ends with it: a missing policy, a garbled rule, an unknown default action |
| `CheckMeaning.TraceExactly` | app-policy/checker/check.go:178-297 | the trace holds exactly the entries of the rules that settle a tier or the profiles and of the default actions reached |
| `CheckMeaning.TierSettles` | app-policy/checker/check.go:187-266 | every case of a tier has the outcome stated for it, by the kinds that are staged, the text of rules and the text of the default action |
| `CheckMeaning.SomeCase` | app-policy/checker/check.go:187-266 | and every tier is one of those cases |
| `CheckTiers.AllowByDefaultDeniesExactly` | app-policy/checker/check.go:187-266 | for any tiers: the trace ends in an allow and access is denied exactly if evaluation reaches a tier with policies in scope, none of which says anything, and a default action of allow |
| `CheckTiers.AllowByDefaultDenies` | app-policy/checker/check.go:256-265 | a default action of "Allow" ends the trace in an allow and denies access |
| `ActiveRules.ProfileDelta` | felix/calc/active_rules_calculator.go:536-566 | exactly the profiles no longer named are dropped, and those added are the new ones and those named twice |
| `ActiveRules.ActiveRulesCalculator.ValidIsRight` | felix/calc/active_rules_calculator.go:385-509 | the incremental state amounts to the answer computed from scratch: active policies, active profiles, missing profiles |
| `ActiveRules.ActiveRulesCalculator.HistoryIndependent` | felix/calc/active_rules_calculator.go:152-295 | what the rule scanner holds depends on the current inputs and not on the order in which they came |
| `ActiveRules.ActiveRulesCalculator.HandleEvents` | felix/calc/active_rules_calculator.go:385-438 | whatever matches start and stop, the scanner is told of exactly the policies that become active or inactive |
| `ActiveRules.ActiveRulesCalculator.OnPolicyUpdate` | felix/calc/active_rules_calculator.go:205-252 | the scanner ends with exactly the policies that match a local endpoint or are force-programmed, each as last stored; neither panic is reachable |
| `ActiveRules.ActiveRulesCalculator.OnPolicyDelete` | felix/calc/active_rules_calculator.go:253-272 | the same after a deletion, once the label index has given up the policy's matches |
| `ActiveRules.ActiveRulesCalculator.OnLabelsUpdate` | felix/calc/active_rules_calculator.go:178-179 | the same after any change of labels |
| `ActiveRules.ActiveRulesCalculator.OnEndpointUpdate` | felix/calc/active_rules_calculator.go:154-177 | the scanner ends with exactly the profiles in use, each with its rules or the drop rules, and before the first sync exactly the unknown ones are noted as missing |
| `ActiveRules.ActiveRulesCalculator.UpdateEndpointProfiles` | felix/calc/active_rules_calculator.go:355-383 | the index of users of each profile follows the endpoint's list |
| `ActiveRules.ActiveRulesCalculator.OnProfileRulesUpdate` | felix/calc/active_rules_calculator.go:180-204 | the scanner has the new rules of an active profile, or the drop rules once they are deleted |
| `ActiveRules.ActiveRulesCalculator.OnInSync` | felix/calc/active_rules_calculator.go:338-353 | from the first in-sync on no profile is noted as missing |
| `LongestPrefix.LowestSortingKey` | felix/calc/iplpm.go:49-70 | the key returned is one of those given, and none sorts below it |
| `LongestPrefix.CoversExactly` | felix/ip/ip_addr.go:243-252 | the binary form of a CIDR is a prefix of an address's exactly if it is of the same family and covers it |
| `LongestPrefix.IpTrie.InsertKey` | felix/calc/iplpm.go:213-237 | inserting adds the pair of CIDR and key and nothing else, without duplicates |
| `LongestPrefix.IpTrie.DeleteKey` | felix/calc/iplpm.go:189-207 | deleting removes exactly the pair if and only if it is not some other key that stands alone under the CIDR; other CIDRs are untouched |
| `LongestPrefix.DeleteOfAnotherKey` | felix/calc/iplpm.go:189-207 | inserting one key and deleting another leaves nothing |
| `LongestPrefix.IpTrie.Replay` | felix/calc/iplpm.go:189-237 | any run of inserts and of deletes of what was inserted leaves exactly the live pairs |
| `LongestPrefix.IpTrie.Lookup` | felix/calc/iplpm.go:81-101 | the lowest key of the longest stored prefix of the address, or none if nothing covers it |
| `LongestPrefix.IpTrie.LookupIsolated` | felix/calc/iplpm.go:108-167 | over all stored pairs that cover the address: the preferred namespace before global before others, then the longest prefix, then the lowest name |
| `LongestPrefix.AnswerUnique` | felix/calc/iplpm.go:108-167 | that description fits one key only |
| `LongestPrefix.RankExactly` | felix/calc/iplpm.go:121-146 | a set is of the preferred namespace exactly if its name starts with that and a slash, and global exactly if its name has no slash or starts with one |
| `LongestPrefix.LeqExactly` | felix/calc/iplpm.go:49-70 | the order of keys is that of a dictionary |
| `CalcLoop.AsyncCalcGraph.Iterate` | felix/calc/async_calc_graph.go:136-194 | after each iteration dirty means an empty bucket, a tick sends whatever waits, and the first in-sync is reported in its own iteration after everything before it |
| `CalcLoop.AsyncCalcGraph.MaybeFlush` | felix/calc/async_calc_graph.go:206-229 | a flush happens exactly if there is something to send and a token, and sends all of it |
| `CalcLoop.AsyncCalcGraph.Loop` | felix/calc/async_calc_graph.go:136-194 | over any input: the bucket stays within 0 to 10, there are at most one more flushes than ticks, every update is sent once and in order, and the in-sync message once |

## Left out

- ConntrackRuns.ApprovedOnlyIfAccepted: takes for granted, for each packet, that the key of the flow which a packet seen before would open is not a forward entry's, that the key of a new forward entry is neither that of its own reverse entry nor one that another forward entry names, and that no replacement port flips the ends; LinkedExactly and OwnLegApprovedExactly say what happens otherwise. Policy's verdict, or that it is skipped, is part of the packet.
- ConntrackNat.NatRoundTrip: for differing post-NAT addresses and nonzero ports, and while nothing is filed over the pair's forward entry and no rejection writes into it; the lemmas before it say what happens to other addresses and ports.
- ConntrackCleanup.LegAsKeyExactly: the layout is that of IPv4 on a little-endian machine.
- ConnLimit.SlotsConserved: flag writes are atomic, the legs carry an interface, and the release of a claim two minutes after a reset and the recount from userspace are not steps.
- FragmentRoundTrip.RoundTrip: up to 10 chunks for each fragment and 16 in all, while the kernel evicts no chunk and the record of the datagram does not expire.
- TokenBucket.PassExactly: where the refill fits the widths; TokensInRangeExactly says what happens otherwise.
- TokenBucket.AcceptedAtMostEarned: for packet times that do not decrease in the order of the lock.
- DropCounter.DropsConserved: exact until the counter has wrapped, after which the wraps are counted too.
- ActiveRules.ActiveRulesCalculator.OnPolicyUpdate: the label index is a list of matches starting and stopping, each reported once and only for known policies.
- RuleMeaning.RuleExactly: for flows with a valid protocol number, without which no rule applies (NoProtocolNoMatch), and a selector library whose empty selector selects everything.
- CalcLoop.AsyncCalcGraph.Loop: the calculation and its coalescing of updates are a buffer that passes each update on.
- PolicyStore.Store.ProcessIpSet: members of a set of CIDRs arrive parsed; that the trie behaves as the set of them is in IpTrie and IpNetSet.
- Conntrack for ICMP errors, tunnels, direct server return, Maglev, host source-port conflicts and the loopback and NAT interfaces: more cases, no new invariant.
- Eviction from the kernel's maps, other than entries vanishing at any time in runs; failures of kernel helpers.
- Routing, redirects, packet marks and packet parsing.
- The timers, ports and marks of the record that a first fragment leaves, and its removal with the last fragment.
- Parsing of CIDRs, addresses and label selectors, and the patricia trie: parameters, or their documented meaning.
- Go's path cleaning is modelled by its documented rule on segments, not by its buffer.
- Computed selectors, policy-match listeners, statistics and the lookup cache beside the rule scanner: they hear the same events.
- Logging, health reports, metrics, locks around whole calls, the gRPC server and the sync client.
- The encapsulation resolver, the config batcher, pass-through of updates and the BGP peer calculator: they would only add simple members.
