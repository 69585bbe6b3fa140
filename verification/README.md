# A verified model of rustybmp

rustybmp collects BGP monitoring (BMP) streams from routers, keeps a RIB per peer, validates origins
against an RPKI cache, archives to MRT and runs in leader/follower pairs. This project models the parts
of it that are hard to get right and proves, for all inputs and all runs, what they are for. It is plain
Dafny 4.11: `dafny verify dfyconfig.toml` checks all of it.

| file | modules | what it models |
|---|---|---|
| `HaElection.dfy`, `HaCommands.dfy` | `HaElection`, `HaCommands` | leader election over one Redis key, tick by tick and command by command |
| `RibTable.dfy` | `RibKey`, `RouteTable`, `RouteTableLaws` | compound keys, the route table object, best path, LLGR staleness |
| `RibSession.dfy` | `RibSession` | peer sessions, the LLGR capability loop |
| `RibManager.dfy` | `RibManager` | message processing over all speakers and peers |
| `RibReplay.dfy`, `RibRuns.dfy` | `RibReplay`, `RibRuns` | whole runs of the manager against a replay of the history |
| `AsPath.dfy`, `Nlri.dfy`, `Update.dfy`, `SrSegments.dfy` | `AsPath`, `Nlri`, `Update`, `SrSegments` | BGP codecs |
| `Mrt.dfy` | `Mrt` | MRT writer and reader |
| `Framing.dfy` | `Framing` | incremental framing of the BMP, proxy and RTR streams |
| `Vrp.dfy`, `Rtr.dfy` | `IpNets`, `VrpCache`, `Rtr` | origin validation and the RTR session |
| `Budgets.dfy` | `RateLimit`, `NlBudget` | the token bucket and the daily token budget |
| `Common.dfy` | `Common`, `Powers`, `BigEndian`, `BgpErrors` | bytes, options, powers of two, big-endian integers, parser errors |

## How it is built

Code that changes things step by step is a class or a method with a loop, proved against a specification
function; the laws are lemmas about those functions, and a run is a fold of them over any sequence of
events. Where the source is nondeterministic (the order in which a hash map lists its keys decides ties in
the best-path election) a step is a relation and the theorems hold for every outcome. Reads without a
bounds check, which abort the Rust task, are a third outcome `Panic` beside `Ok` and `Err`.

Decisions a reader should know:

- A prefix in the RIB is its printed text, because the table looks at nothing else; no printed prefix
  contains `@`. Two labelled prefixes that print alike share a cell, in the source as here.
- Tables and sessions are owned by value in the source. A mutable borrow of one is a fresh object that is
  stored back when the borrow ends, so there is no aliasing to lose.
- Times are explicit: milliseconds in the election, nanoseconds in the RIB and the token bucket. A Redis key
  with expiry `e` is visible while `now < e`.
- The filter that is loaded when a Route Monitoring message arrives is an arbitrary function of what the
  source passes to it; it may differ from message to message.
- The decoders of interpreted path attributes other than AS_PATH, AS4_PATH, MULTI_EXIT_DISC and LOCAL_PREF are an
  arbitrary function that accepts or rejects a value.

Where the code does not do what its comments or its users would expect, the model follows the code and a
lemma shows the difference:

- The election's module comment promises takeover within the lease. `TakeoverCanExceedLease` shows a longer
  gap, `TakeoverAfterCrash` proves the bound that holds, `TakenOverIff` that it is exact, and
  `TakeoverWithinLeaseIff` says exactly when the promise is kept.
- A leader that loses Redis keeps its flag (`TwoLeadersAfterLostTicks`); `SecondLeaderIff` says exactly when the
  next tick makes a second leader.
- A late `EXPIRE` renews somebody else's lease (`LateRenewalMakesTwoLeaders`); `RenewalKeepsPromisesIff` and
  `RenewalDangerousIff` give the check that is missing before it.
- A one-hop four-byte AS_PATH can be read as two two-byte segments (`OneHopMisread`);
  `FourByteDecodesIff` says exactly which paths survive, `OneHopDecodesIff` which ASNs.
- The MPLS label of an SR segment has 12 bits in the code, although its comment says 20: of all standard
  labels only 0 is read correctly (`StandardLabelIff`, `LabelMisread`).
- A zero BMP length field makes the receiver's loop spin (`BmpEndsIff`); the proxy waits instead.
- The size check for RTR IPv6 Prefix PDUs asks for 36 bytes where the standard has 32, so such PDUs are dropped
  and every IPv6 route validates as NotFound (`PrefixPduRead`, `Ipv6NeverFound`).
- A withdrawal inside an RTR response acts on the visible table, not on the one being loaded
  (`WithdrawnInResponseIsCommitted`, with the exact condition in `CommitAppliesResponseIff`).
- An incremental RTR response replaces the table (`UpdateLosesTable`, with the exact condition in
  `CommitKeepsOldIff`, and for both faults together in `CommitIsUpdateIff`).
- The removal of the best Add-Path route elects no other (`BestRouteLost`, `BestWhileElectedStored`), and the
  removal of an expired route emits no event (`UnheardChangeIff`).
- Announcing one prefix both with and without path ids can leave two best routes
  (`MixedAnnouncementsTwoBest`, with the exact condition in `PlainMessageKeepsOneBestIff`).
- A route of a peer that never came up outlives its speaker (`OrphanWithoutPeerUp`, with the exact condition in
  `TerminationLeavesIff`).
- With a stale time of zero seconds truncation lets routes expire up to a second early
  (`ExpiredAtZeroSeconds`).
- Concurrent callers can be granted twice the daily budget (`TwoResetsOneDay`). It takes a
  reset store between two grants of one day (`DailyLimitOfThreads`), and a reset store behind a grant lets one more
  call on that day do it (`LateResetOverdraws`).
- The Add-Path NLRI decoder runs off its buffer on exactly the inputs that `PanicsExactly` names.
- An MRT record with addresses of two families never reads back (`HeaderSurvivesIff`).

## Model

| member | source | states |
|---|---|---|
| HaElection.LeaseStore.SetNxEx | crates/rbmp-server/src/ha.rs:69-78 | SET NX EX takes the key exactly when it is absent or expired |
| HaElection.LeaseStore.Expire | crates/rbmp-server/src/ha.rs:99-103 | EXPIRE moves the expiry of a present key, whoever holds it |
| HaElection.HaState.Tick | crates/rbmp-server/src/ha.rs:66-115 | a connected tick has the effect of `TickEffect` on key and flag; a failed connection changes nothing |
| HaElection.ApplyKeepsLease | crates/rbmp-server/src/ha.rs:62-117 | every step keeps: a live leader with a fresh tick owns the key until exactly that tick plus its lease |
| HaElection.AtMostOneFreshLeader | crates/rbmp-server/src/ha.rs:62-117 | in every run, with lost connections, crashes and restarts, at most one live leader has an unexpired lease |
| HaElection.AtMostOneLeader | crates/rbmp-server/src/ha.rs:62-117 | while leaders tick less than a lease apart, at no point of a run do two live instances lead, and the key names the leader |
| HaElection.SecondLeaderIff | crates/rbmp-server/src/ha.rs:69-110 | in every reachable state with a live leader, a tick of another instance makes a second leader if and only if the key is absent or names that instance, and this needs a leader whose last tick is a whole lease ago |
| HaElection.TwoLeadersAfterLostTicks | crates/rbmp-server/src/ha.rs:112-114 | a leader that loses Redis keeps its flag while another takes the expired key |
| HaElection.TakeoverBound | crates/rbmp-server/src/ha.rs:63-89 | once the old lease is over for the tick period of any one live instance, a live instance leads |
| HaElection.TakeoverAfterCrash | crates/rbmp-server/src/ha.rs:63-89 | after a leader crashes in any reachable state: takeover by its last renewal plus lease plus half a lease of a survivor |
| HaElection.TakenOverIff | crates/rbmp-server/src/ha.rs:63-89 | the bound is exact: after a crash in any reachable state, all steady runs have a leader from time t on if and only if the tick period of some survivor fits between the end of the old lease and t |
| HaElection.TakeoverWithinLeaseIff | crates/rbmp-server/src/ha.rs:1-11 | takeover within one lease of the failure, as the comment promises, holds if and only if the last renewal was at least the tick period of some survivor before the crash |
| HaElection.TakeoverCanExceedLease | crates/rbmp-server/src/ha.rs:1-11 | a run in which it fails by half a lease, with the survivor on time |
| HaCommands.AtMostOnePromisedLeader | crates/rbmp-server/src/ha.rs:67-110 | safety with commands of instances interleaved and commands or replies lost, if no EXPIRE is sent after the lease it renews ran out |
| HaCommands.RenewalKeepsPromisesIff | crates/rbmp-server/src/ha.rs:79-104 | an EXPIRE keeps the safety invariant if and only if its sender still holds the key, which the code does not check |
| HaCommands.RenewalBesideLeaderIff | crates/rbmp-server/src/ha.rs:97-104 | in every reachable state an EXPIRE makes a second leader on the spot if and only if another one led on a standing promise; then it was sent late |
| HaCommands.RenewalDangerousIff | crates/rbmp-server/src/ha.rs:79-104 | in every reachable state an EXPIRE opens the way to two leaders, all later commands on time, if and only if its sender no longer holds the key and another instance could take it |
| HaCommands.LateRenewalMakesTwoLeaders | crates/rbmp-server/src/ha.rs:97-104 | a run in which it does |
| HaCommands.LossyTick | crates/rbmp-server/src/ha.rs:67-110 | for every combination of lost commands and replies: the instance leads after its tick if and only if its SET took the key and was answered, or the answer to GET named it |
| HaCommands.GetDemotes | crates/rbmp-server/src/ha.rs:92-110 | a GET that is unanswered or names anybody else demotes its sender, in any state |
| HaCommands.UninterruptedTick | crates/rbmp-server/src/ha.rs:67-110 | the commands of one undisturbed tick have the effect of the atomic tick |
| RibKey.DecimalInjective | crates/rbmp-rib/src/table.rs:34-39 | printed path ids determine the path id |
| RibKey.EntryKeyInjective | crates/rbmp-rib/src/table.rs:34-39 | the compound key determines prefix and path id |
| RibKey.ScannedIffSamePrefix | crates/rbmp-rib/src/table.rs:73-77 | the string scan matches exactly the keys of the prefix |
| RouteTable.RibTable.Insert | crates/rbmp-rib/src/table.rs:45-51 | stores the entry under its key and reports whether the table grew |
| RouteTable.RibTable.RemoveWithPathId | crates/rbmp-rib/src/table.rs:58-61 | removes one key and returns what it held |
| RouteTable.RibTable.RecomputeBestPath | crates/rbmp-rib/src/table.rs:70-96 | exactly one minimal route of the prefix is flagged, nothing else changes, ties by any hash order |
| RouteTable.MinByRank | crates/rbmp-rib/src/table.rs:84-90 | the chosen key has the least (complement of LOCAL_PREF, hops, MED) |
| RouteTable.RibTable.MarkStaleAll | crates/rbmp-rib/src/table.rs:126-135 | every normal route of every RIB becomes stale at that time, others stay |
| RouteTable.RibTable.DrainDeletedStale | crates/rbmp-rib/src/table.rs:139-156 | exactly the expired routes go, and the count returned is their number |
| RouteTableLaws.ExpiredExactly | crates/rbmp-rib/src/table.rs:143-150 | for one second or more, expiry is stale time plus stale seconds not after now, despite truncation |
| RouteTableLaws.ExpiredAtZeroSeconds | crates/rbmp-rib/src/table.rs:143-150 | for zero seconds a route expires up to one second before its stale time |
| RouteTableLaws.MarkStaleIdempotent | crates/rbmp-rib/src/table.rs:126-135 | a repeated marking moves no stale time |
| RouteTableLaws.DrainTwice | crates/rbmp-rib/src/table.rs:139-156 | draining at two times equals draining at the later one, and the two counts of expired routes add up to its count |
| RouteTableLaws.RankMeaning | crates/rbmp-rib/src/table.rs:84-90 | the rank is the documented order: highest LOCAL_PREF, fewest hops, lowest MED, absent values last; any two routes compare |
| RouteTableLaws.ElectionLeavesOneMinimal | crates/rbmp-rib/src/table.rs:70-96 | an election leaves exactly one best route of the prefix, and none ranks before it |
| RouteTableLaws.ElectedIsGood | crates/rbmp-rib/src/table.rs:70-96 | the elected route is at least as good as every route of the prefix, by LOCAL_PREF, hops and MED read off the routes |
| RouteTableLaws.ShorterPathWins | crates/rbmp-rib/src/table.rs:84-90 | of two routes with one LOCAL_PREF the one with the shorter AS path is elected |
| RouteTableLaws.OneHopBeatsThree | crates/rbmp-rib/src/table.rs:84-90 | for example, one SEQUENCE hop beats three |
| AsPath.HopsAdd | crates/rbmp-core/src/bgp/types.rs:263-268 | hop counts of paths add up |
| AsPath.HopsOfSegment | crates/rbmp-core/src/bgp/types.rs:263-268 | a SEQUENCE counts its ASNs, sets and confederation segments count none |
| RouteTableLaws.PlainAnnounceKeepsOneBestIff | crates/rbmp-rib/src/manager.rs:208-223 | announcing without path id keeps one best route if and only if no Add-Path route of the prefix was best |
| RibSession.MaxStaleTime | crates/rbmp-rib/src/session.rs:75-86 | the greatest stale time of the complete 7-byte entries |
| RibSession.StaleTimeOfEntry | crates/rbmp-rib/src/session.rs:72-86 | the stale time is the last three octets of a seven-octet entry |
| RibSession.FirstCapabilityDecides | crates/rbmp-rib/src/session.rs:68-86 | the first Add-Path and the first LLGR capability are the ones that count |
| RibSession.PeerSession.OnUp | crates/rbmp-rib/src/session.rs:62-89 | session fields after a Peer Up; the first LLGR capability decides the stale time |
| RibManager.RibManager.ExpireStaleForPeer | crates/rbmp-rib/src/manager.rs:63-68 | drains one peer's tables and returns the exact count |
| RibManager.RibManager.Process | crates/rbmp-rib/src/manager.rs:71-246 | every message is one `Step` of the state relation and emits exactly the events of `Emitted` |
| RibManager.RibManager.ProcessPeerDown | crates/rbmp-rib/src/manager.rs:114-140 | LLGR peers are marked stale, others cleared |
| RibManager.RibManager.ProcessRoutes | crates/rbmp-rib/src/manager.rs:141-238 | withdrawals first, then announcements in order, filtered one by one |
| RibManager.RibManager.AnnounceInto | crates/rbmp-rib/src/manager.rs:177-223 | a denied announcement changes nothing; an accepted one is stored, with an election when it has a path id |
| RibReplay.WithdrawFinds | crates/rbmp-rib/src/manager.rs:157-159 | withdrawals empty exactly the cells they name |
| RibReplay.AnnounceFinds | crates/rbmp-rib/src/manager.rs:176-223 | announcements fill exactly the accepted cells, elections change no cell but for best flags |
| RibReplay.StepSessions | crates/rbmp-rib/src/manager.rs:76-127 | the session table agrees with the last Peer Up since the last Termination |
| RibReplay.StateIsReplay | crates/rbmp-rib/src/manager.rs:71-245 | after any history and any filters, every cell of every reachable state equals the replay of the history |
| RibReplay.LastWriterWins | crates/rbmp-rib/src/manager.rs:71-245 | a cell holds a route exactly when an accepted announcement was not followed by an announcement, withdrawal, non-LLGR Peer Down, Termination of an owning speaker or stale expiry; then it is that route |
| RibRuns.Drive | crates/rbmp-rib/src/manager.rs:71-246 | the object, fed any history, is in a state that history reaches and has emitted its events |
| RibRuns.SessionTells | crates/rbmp-rib/src/session.rs:62-99 | in every reachable state a peer session is that of the last Peer Up, with the state and time of a Peer Down since |
| RibRuns.FlapsAndNames | crates/rbmp-rib/src/session.rs:62-65 | a Peer Up of a peer already up counts a flap; an Initiation names the speaker and keeps its peers |
| RibRuns.RoutesOfMessage | crates/rbmp-core/src/bgp/types.rs:888-905 | a message announces each prefix with the path id at its position, and those of MP_REACH without one; withdrawals alike |
| RibRuns.EndOfRibIff | crates/rbmp-core/src/bgp/types.rs:880-886 | a message is an End-of-RIB marker if and only if it names no route and has no MP_REACH |
| RibRuns.VerdictDecides | crates/rbmp-rib/src/manager.rs:177-218 | in every reachable state a route announced under Accept or Default is stored as announced, one under Deny leaves its cell as the withdrawals make it |
| RibRuns.UnannouncedCell | crates/rbmp-rib/src/manager.rs:157-218 | a route not announced is gone if the message withdraws it and stays otherwise |
| RibRuns.SessionEvents | crates/rbmp-rib/src/manager.rs:76-140 | one event of its kind for every session message |
| RibRuns.RouteEvents | crates/rbmp-rib/src/manager.rs:146-238 | one withdrawal event for each route withdrawn, in order, then the announcements; an end-of-RIB event for a message without routes |
| RibRuns.OneAnnouncement | crates/rbmp-rib/src/manager.rs:177-238 | one announced route gives one event unless the filter denies it |
| RibRuns.EventsTellRoutes | crates/rbmp-rib/src/manager.rs:157-238 | an announcement is emitted for exactly the prefixes that some accepted route stores with those attributes, a withdrawal for exactly the prefixes withdrawn |
| RibRuns.UnheardChangeIff | crates/rbmp-rib/src/manager.rs:63-245 | in every reachable state the only change of a cell that no event names is the removal of an expired stale route |
| RibRuns.RunKeepsLlgr | crates/rbmp-rib/src/table.rs:126-156 | in every reachable state a route is stale-marked if and only if it has a stale time, and none is deleted |
| RibRuns.PeerDownKeepsStaleTime | crates/rbmp-rib/src/manager.rs:129-137 | a Peer Down never moves the time of a stale route |
| RibRuns.ExpiryRemovesExactly | crates/rbmp-rib/src/manager.rs:63-68 | expiry in any reachable state removes exactly the peer's routes that are old enough |
| RibRuns.RoutesAreOwned | crates/rbmp-rib/src/manager.rs:76-155 | if Peer Up comes first (section 3.3 of RFC 7854), every peer with a route belongs to a live speaker session |
| RibRuns.TerminationLeavesNoOrphans | crates/rbmp-rib/src/manager.rs:85-95 | after a Termination no peer known only to that speaker keeps a route |
| RibRuns.TerminationLeavesIff | crates/rbmp-rib/src/manager.rs:85-95 | in every reachable state a Termination removes exactly the routes of peers the speaker brought up on this session |
| RibRuns.OrphanWithoutPeerUp | crates/rbmp-rib/src/manager.rs:85-95 | without the Peer Up a route outlives the Termination |
| RibRuns.AddPathAnnounceElects | crates/rbmp-rib/src/manager.rs:219-223 | an accepted Add-Path announcement leaves exactly one best route, a minimal one, whatever was flagged before |
| RibRuns.BestPathInvariant | crates/rbmp-rib/src/table.rs:70-96 | in every run with always or never path ids for a prefix, at most one of its routes is best; right after an accepted Add-Path announcement exactly one is, and it is minimal |
| RibRuns.PlainMessageKeepsOneBestIff | crates/rbmp-rib/src/manager.rs:208-223 | the same condition for messages in every reachable state |
| RibRuns.MixedAnnouncementsTwoBest | crates/rbmp-rib/src/manager.rs:219-223 | a history that announces a prefix with and then without path id leaves two best routes |
| RibRuns.ElectedAfterAddPath | crates/rbmp-rib/src/manager.rs:219-223 | right after a message that announces a prefix only with path ids exactly one of its routes is best, a minimal one, after any history |
| RibRuns.BestWhileElectedStored | crates/rbmp-rib/src/manager.rs:157-159 | from then on the prefix has a best route exactly as long as the elected one is stored |
| RibRuns.PlainRoutesAreBest | crates/rbmp-rib/src/manager.rs:208-223 | without path ids every route is best in every run |
| RibRuns.BestRouteLost | crates/rbmp-rib/src/manager.rs:157-159 | a history that withdraws the best of two routes and leaves the other without a best flag |
| AsPath.ParseLoop | crates/rbmp-core/src/bgp/attributes.rs:209-239 | the loop computes `ParseSized`, error cases included |
| AsPath.ParseEncode | crates/rbmp-core/src/bgp/attributes.rs:209-239 | decoding inverts encoding at the right width |
| AsPath.AcceptsExactlyEncodings | crates/rbmp-core/src/bgp/attributes.rs:209-239 | a byte string is accepted if and only if it is an encoded path and at most one stray byte |
| AsPath.SegmentRead | crates/rbmp-core/src/bgp/attributes.rs:209-239 | type octets 1 to 4 name the segment kinds, ASNs are big-endian numbers, other types are errors |
| AsPath.ErrorsReported | crates/rbmp-core/src/bgp/attributes.rs:192-207 | parsing fails if and only if both widths fail, with the error of the two-byte attempt |
| AsPath.TwoByteDecodes | crates/rbmp-core/src/bgp/attributes.rs:192-207 | every well-formed two-byte path decodes to itself |
| AsPath.FourByteDecodesIff | crates/rbmp-core/src/bgp/attributes.rs:192-207 | a four-byte path is decoded correctly if and only if it has no ASN or its bytes are not also a two-byte path |
| AsPath.FallbackDecodes | crates/rbmp-core/src/bgp/attributes.rs:192-207 | a first segment of n ASNs and a byte at offset 2+2n outside 1..4 make the fallback decode the path |
| AsPath.EvenFirstSegmentDecodes | crates/rbmp-core/src/bgp/attributes.rs:192-207 | so every even first segment with a middle ASN under 2^24 decodes |
| AsPath.OneHopDecodesIff | crates/rbmp-core/src/bgp/attributes.rs:192-207 | a one-hop path through AS a is misread if and only if a mod 256 is 0 and the octet before it is 1, 2, 3 or 4 |
| AsPath.OneHopMisread | crates/rbmp-core/src/bgp/attributes.rs:197-206 | so the path through AS 512 comes back as two segments |
| Nlri.WritePrefixNlri | crates/rbmp-mrt/src/writer.rs:47-69 | appends length and leading octets, of the inner prefix for labelled and VPN prefixes |
| Nlri.EncodedOctets | crates/rbmp-mrt/src/writer.rs:47-69 | a prefix takes its length octet and the least number of octets that hold the length |
| Nlri.Decode | crates/rbmp-core/src/bgp/nlri.rs:58-91 | the loop computes `DecodeNlri`, errors included |
| Nlri.DecodeIds | crates/rbmp-core/src/bgp/nlri.rs:12-53 | the loop computes `DecodeWithPathId`, errors and the unchecked read included |
| Nlri.DecodedAddress | crates/rbmp-core/src/bgp/nlri.rs:58-91 | a buffer with an admissible length and that many octets decodes; as a number the address has the first bits of the octets and zeros after them |
| Nlri.DecodeFails | crates/rbmp-core/src/bgp/nlri.rs:58-91 | too few octets and too long a length are the only errors, in that order |
| Nlri.SlashTwentyFour | crates/rbmp-core/src/bgp/nlri.rs:58-91 | for example, 24 and three octets are a /24 |
| Nlri.RoundTrip | crates/rbmp-core/src/bgp/nlri.rs:58-91 | decoding a written list of one family gives the truncated prefixes back |
| Nlri.Reencode | crates/rbmp-core/src/bgp/nlri.rs:58-91 | re-encoding any accepted bytes changes only host bits and decodes to the same list |
| Nlri.AddPathOffAgrees | crates/rbmp-core/src/bgp/nlri.rs:12-91 | with Add-Path off both decoders agree on every byte string, errors included, and never abort |
| Nlri.ItemsRoundTrip | crates/rbmp-core/src/bgp/nlri.rs:12-53 | items with or without path ids decode to themselves |
| Nlri.ReencodeItems | crates/rbmp-core/src/bgp/nlri.rs:12-53 | re-encoding any bytes the Add-Path decoder accepts keeps path ids and changes only host bits |
| Nlri.AcceptsExactlyItems | crates/rbmp-core/src/bgp/nlri.rs:12-53 | the Add-Path decoder accepts exactly the well-formed item lists, host bits aside |
| Nlri.PanicsExactly | crates/rbmp-core/src/bgp/nlri.rs:15-23 | the Add-Path decoder aborts if and only if a well-formed item list is followed by exactly four bytes |
| Update.ParseAttributeLoop | crates/rbmp-core/src/bgp/attributes.rs:20-44 | the loop computes `ParsePathAttributes` |
| Update.AttributesMean | crates/rbmp-core/src/bgp/attributes.rs:20-187 | any attribute list is accepted if and only if every decoder accepts; AS_PATH, AS4_PATH, MED and LOCAL_PREF come from the last attribute of types 2, 17, 4 and 5, raw attributes stay in order |
| Update.KeptRaw | crates/rbmp-core/src/bgp/attributes.rs:45-187 | which types and sizes are interpreted and which are kept raw |
| Update.ExtendedBit | crates/rbmp-core/src/bgp/attributes.rs:25-33 | bit 16 of the flags asks for a two-octet length |
| Update.AttributeOctets | crates/rbmp-core/src/bgp/attributes.rs:20-44 | the octets of an encoded attribute, on which the round trips rest |
| Update.PathsRoundTrip | crates/rbmp-core/src/bgp/attributes.rs:51-53 | an AS_PATH and an AS4_PATH among raw attributes parse to those paths, each in its own field |
| Update.AttributesFramed | crates/rbmp-core/src/bgp/attributes.rs:20-44 | framing is exact for attributes of every type, with one- or two-byte lengths |
| Update.RawAttributesKept | crates/rbmp-core/src/bgp/attributes.rs:177-185 | attributes without an arm are kept, in order and unchanged |
| Update.ParseBgpUpdate | crates/rbmp-core/src/bgp/update.rs:12-54 | the buffer-consuming parser computes `ParseUpdate`, with path-id lists as long as the prefix lists |
| Update.UpdateAssembled | crates/rbmp-core/src/bgp/update.rs:12-54 | an assembled UPDATE parses back to its routes and to what its attributes parse to, for both Add-Path settings |
| Update.UpdateRoundTrip | crates/rbmp-core/src/bgp/update.rs:12-54 | with raw attributes those come back as they were |
| Update.UpdatePathsRoundTrip | crates/rbmp-core/src/bgp/update.rs:12-54 | with AS paths among them those come back too |
| Update.HeaderChecked | crates/rbmp-core/src/bgp/update.rs:12-30 | the body is parsed if and only if sixteen octets of ones are in front and the type is 2 |
| Update.AssembledOctets | crates/rbmp-core/src/bgp/update.rs:12-54 | the octets of an assembled UPDATE, on which the round trips rest |
| SrSegments.ParseSegments | crates/rbmp-core/src/bgp/srpolicy.rs:163-267 | the recursive loop computes `Parse` and terminates |
| SrSegments.ParseEncoded | crates/rbmp-core/src/bgp/srpolicy.rs:163-267 | parsing the encoding of any segment tree that fits its length bytes returns the tree |
| SrSegments.ParseBehind | crates/rbmp-core/src/bgp/srpolicy.rs:163-267 | whole segments are kept and what follows them is parsed on its own, up to the first bad length |
| SrSegments.ShortSegments | crates/rbmp-core/src/bgp/srpolicy.rs:188-235 | type octets and field order of the IPv4 segment types |
| SrSegments.LongSegments | crates/rbmp-core/src/bgp/srpolicy.rs:188-235 | those of the types with one IPv6 address |
| SrSegments.AdjacencySegments | crates/rbmp-core/src/bgp/srpolicy.rs:188-235 | those of the IPv6 adjacencies |
| SrSegments.OtherSegments | crates/rbmp-core/src/bgp/srpolicy.rs:235-267 | type 11 holds segments, types without an arm are kept as they are |
| SrSegments.SidWithBehavior | crates/rbmp-core/src/bgp/srpolicy.rs:189-195 | two octets behind an SRv6 SID are its behavior |
| SrSegments.StandardLabelIff | crates/rbmp-core/src/bgp/srpolicy.rs:178-187 | every standard four-byte label stack entry is read with the label divided by 256; the label is right if and only if it is 0, the segment if and only if all its fields are |
| SrSegments.LabelMisread | crates/rbmp-core/src/bgp/srpolicy.rs:178-187 | label 16000 is read as 62 |
| Mrt.MrtWriter.WriteMessage | crates/rbmp-mrt/src/writer.rs:76-116 | appends one encoded message record |
| Mrt.MrtWriter.WriteStateChange | crates/rbmp-mrt/src/writer.rs:120-155 | appends one encoded state-change record |
| Mrt.MrtReader.Next | crates/rbmp-mrt/src/reader.rs:32-73 | takes one record off the stream; a short header ends it, a short body is an error |
| Mrt.MrtReader.Collect | crates/rbmp-mrt/src/reader.rs:54-73 | the iterator yields `ReadAll` |
| Mrt.BodyRoundTrip | crates/rbmp-mrt/src/reader.rs:88-143 | a written body parses to its header, PDU and states |
| Mrt.RecordLayout | crates/rbmp-mrt/src/writer.rs:76-155 | where time, type, subtype, length, ASNs, interface, family, addresses and payload stand in a written record |
| Mrt.StateCodes | crates/rbmp-mrt/src/writer.rs:149-150 | states are written as 1 to 6 |
| Mrt.EpochSecsMeans | crates/rbmp-mrt/src/writer.rs:32-34 | times from 1970 to 2106 are written as they are, earlier ones as 0 |
| Mrt.TruncatedStream | crates/rbmp-mrt/src/reader.rs:32-73 | a stream cut behind whole records yields those, and an error if a header but not its whole body is left |
| Mrt.ShortBodies | crates/rbmp-mrt/src/reader.rs:88-125 | which bodies are too short, and family 2 alone is IPv6 |
| Mrt.StreamRoundTrip | crates/rbmp-mrt/src/reader.rs:32-143 | any list of records of one family each and under 2^32 bytes reads back record by record, then ends |
| Mrt.HeaderSurvivesIff | crates/rbmp-mrt/src/writer.rs:86-111 | the header reads back if and only if both addresses are of one family |
| Framing.FrameReader.OnRead | crates/rbmp-server/src/receiver.rs:112-153 | a read and its drain loop compute `Feed` |
| Framing.ChunkingIrrelevant | crates/rbmp-server/src/receiver.rs:91-153 | frames, halting and leftover do not depend on how the stream is cut into reads |
| Framing.NoByteLost | crates/rbmp-server/src/receiver.rs:112-118 | frames and leftover make up the stream |
| Framing.LengthField | crates/rbmp-server/src/receiver.rs:112-118 | the length is a big-endian number in octets 1 to 4 of six, in RTR 4 to 7 of eight |
| Framing.FirstFrame | crates/rbmp-server/src/receiver.rs:112-118 | a whole frame is cut off at its length and the rest is split on its own |
| Framing.Waits | crates/rbmp-server/src/receiver.rs:112-118 | nothing is delivered while the header or the first frame is not whole |
| Framing.BadLength | crates/rbmp-enrichment/src/rtr.rs:91-97 | a bad length field halts the BMP loop, leaves the proxy waiting and ends the RTR session, with the bytes left in place |
| Framing.FramesSplitBack | crates/rbmp-server/src/receiver.rs:112-118 | a stream of well-formed frames and the start of another splits into exactly those frames |
| Framing.BmpEndsIff | crates/rbmp-server/src/receiver.rs:112-118 | the BMP drain loop ends if and only if no frame of the stream, found by adding up length fields, starts with a zero length |
| Framing.ProxyNeverHalts | crates/rbmp-server/src/proxy.rs:139-145 | the proxy's drain loop always ends |
| Framing.ProxyConnection.OnRead | crates/rbmp-server/src/proxy.rs:106-167 | the chunk goes upstream as it came; a failed write drops the upstream only |
| Framing.ProxyConnection.Relay | crates/rbmp-server/src/proxy.rs:106-167 | upstream gets the stream up to the first failed write, the local frames are those of the whole stream |
| IpNets.CoversIffPrefixBits | crates/rbmp-enrichment/src/vrp_cache.rs:106-112 | the range comparison means: not longer, and equal in the first bits |
| IpNets.CoversIsPartialOrder | crates/rbmp-enrichment/src/vrp_cache.rs:106-112 | `covers` is a partial order on networks without host bits |
| VrpCache.Cache.ApplyDelta | crates/rbmp-enrichment/src/vrp_cache.rs:59-66 | removals by prefix and origin, then additions |
| VrpCache.MinusKeeps | crates/rbmp-enrichment/src/vrp_cache.rs:61-63 | exactly the entries no removal names stay |
| VrpCache.Cache.ValidateRoute | crates/rbmp-enrichment/src/vrp_cache.rs:85-102 | the two loops decide origin validation as section 2 of RFC 6811 defines it |
| VrpCache.ValidateMeans | crates/rbmp-enrichment/src/vrp_cache.rs:85-112 | NotFound if and only if no VRP agrees with the route in the bits of its prefix, Valid if and only if one that does has its origin and allows its length |
| VrpCache.ValidateMonotone | crates/rbmp-enrichment/src/vrp_cache.rs:85-102 | more VRPs only move NotFound to Invalid or Valid, or Invalid to Valid |
| VrpCache.ValidateIgnoresOrder | crates/rbmp-enrichment/src/vrp_cache.rs:85-102 | order and duplicates do not matter |
| VrpCache.MoreSpecificFound | crates/rbmp-enrichment/src/vrp_cache.rs:85-112 | a more specific of a found route is found |
| Rtr.RtrClient.OnPdu | crates/rbmp-enrichment/src/rtr.rs:98-185 | one PDU has the effect of `Handle` on session and cache, and says whether the session goes on |
| Rtr.PrefixPduRead | crates/rbmp-enrichment/src/rtr.rs:108-148 | every field of a Prefix PDU is read from its place and the flag decides; an IPv6 one counts exactly when 4 bytes more than the standard's 32 are there |
| Rtr.StoredFromOctets | crates/rbmp-enrichment/src/rtr.rs:108-148 | the stored network has the first bits of the address octets in order and zeros after, with maximum length and ASN from their octets |
| Rtr.OtherPdus | crates/rbmp-enrichment/src/rtr.rs:98-185 | which PDU types reset, fail or are ignored |
| Rtr.TenSlashEight | crates/rbmp-enrichment/src/rtr.rs:108-128 | a PDU for 10.0.0.0/8 up to /16 makes 10.1.0.0/16 valid |
| Rtr.ControlPdusRead | crates/rbmp-enrichment/src/rtr.rs:102-107 | session id and serial are read from their places |
| Rtr.Ipv6NeverFound | crates/rbmp-enrichment/src/rtr.rs:130-133 | after any number of sessions of standard PDUs every IPv6 route validates as NotFound |
| Rtr.PrefixesAreCanonical | crates/rbmp-enrichment/src/rtr.rs:117-122 | stored prefixes are valid and have no host bits |
| Rtr.OnlyWholeTablesVisible | crates/rbmp-enrichment/src/rtr.rs:101-167 | after every PDU sequence the table is what the last in-response End of Data committed, less the withdrawals since; a commit is the announcements since the latest Cache Response |
| Rtr.LoadingStaysHidden | crates/rbmp-enrichment/src/rtr.rs:101-167 | between commits nothing enters the visible table |
| Rtr.CommitAppliesResponseIff | crates/rbmp-enrichment/src/rtr.rs:123-155 | a commit is what the acts of its response, in order, load if and only if no announcement of the response is withdrawn later in it |
| Rtr.WithdrawnInResponseIsCommitted | crates/rbmp-enrichment/src/rtr.rs:123-128 | an entry announced and withdrawn in one response is committed |
| Rtr.CommitKeepsOldIff | crates/rbmp-enrichment/src/rtr.rs:150-155 | the visible table survives a commit if and only if every entry of the last commit not withdrawn since is announced again after the Cache Response |
| Rtr.CommitIsUpdateIff | crates/rbmp-enrichment/src/rtr.rs:101-167 | a commit is the old table updated by the acts of its response if and only if everything left alone is announced again and no announcement is withdrawn for good |
| Rtr.UpdateLosesTable | crates/rbmp-enrichment/src/rtr.rs:150-155 | an incremental response that adds one VRP leaves only that one |
| Rtr.CacheIgnoresChunking | crates/rbmp-enrichment/src/rtr.rs:77-98 | the cache depends on the bytes of a session, not on how they were read |
| Rtr.Converse | crates/rbmp-enrichment/src/rtr.rs:77-167 | framer and client together, fed a stream in any chunks, compute `RunPdus` of its PDUs |
| Rtr.DriveSessions | crates/rbmp-enrichment/src/rtr.rs:77-167 | over any number of connections they are in the state of `RunSessions` |
| RateLimit.TokenBucket.AllowMessage | crates/rbmp-server/src/auth.rs:141-152 | one token per allowed message; capacity zero is unlimited |
| RateLimit.CallsValid | crates/rbmp-server/src/auth.rs:133-152 | tokens stay between zero and the capacity in every run |
| RateLimit.WindowBound | crates/rbmp-server/src/auth.rs:133-152 | in every window of every run at most capacity plus rate times the whole-millisecond gaps is allowed |
| RateLimit.RateBound | crates/rbmp-server/src/auth.rs:122-152 | hence at most msgs_per_sec and msgs_per_sec more for every second of the window |
| RateLimit.AllowedIff | crates/rbmp-server/src/auth.rs:133-152 | a message is let through if and only if a whole token is there with the refill since the last call |
| RateLimit.ZeroIsUnlimited | crates/rbmp-server/src/auth.rs:141-143 | a limit of zero lets every message through |
| RateLimit.BurstAdmitted | crates/rbmp-server/src/auth.rs:141-152 | a bucket with n tokens lets the next n messages through, whenever they come |
| RateLimit.FreshBurst | crates/rbmp-server/src/auth.rs:122-131 | a new bucket lets msgs_per_sec messages through at once |
| RateLimit.IdleSecondFills | crates/rbmp-server/src/auth.rs:122-138 | one idle second fills the bucket after any run |
| NlBudget.Conservation | crates/rbmp-server/src/mcp_server.rs:22-40 | in every interleaving, budget left plus grants since the last reset store is 500,000 |
| NlBudget.GrantsAtMostResets | crates/rbmp-server/src/mcp_server.rs:32-38 | a run grants at most 500,000 for each reset store and 500,000 more |
| NlBudget.TwoResetsOneDay | crates/rbmp-server/src/mcp_server.rs:31-35 | two threads can be granted 1,000,000 on one day |
| NlBudget.StepKeepsHeadroomIff | crates/rbmp-server/src/mcp_server.rs:31-38 | what is left fits into what the day may still be granted after a step if and only if the step is no reset store after a grant on that day |
| NlBudget.AlwaysHeadroomIff | crates/rbmp-server/src/mcp_server.rs:22-40 | an interleaving keeps that throughout if and only if it has no such late reset |
| NlBudget.OverdrawnByOneCallIff | crates/rbmp-server/src/mcp_server.rs:26-40 | one more undisturbed call can overdraw the day if and only if that room is gone |
| NlBudget.DailyLimitOfThreads | crates/rbmp-server/src/mcp_server.rs:22-40 | every interleaving, over any days and with any clock, grants at most 500,000 on a day unless a reset store lies between two grants of that day |
| NlBudget.LateResetOverdraws | crates/rbmp-server/src/mcp_server.rs:31-38 | after a reset store behind a grant of a day, one more call on that day is granted past the limit |
| NlBudget.TokenBudget.ConsumeTokens | crates/rbmp-server/src/mcp_server.rs:26-40 | one undisturbed call |
| NlBudget.UninterruptedCall | crates/rbmp-server/src/mcp_server.rs:26-40 | the atomic actions of an undisturbed call are that call |
| NlBudget.GrantedExactly | crates/rbmp-server/src/mcp_server.rs:26-40 | a serialized call is granted if and only if its day still has that many tokens |
| NlBudget.StampedDayIsLatest | crates/rbmp-server/src/mcp_server.rs:26-34 | with any clock the stamped day is the latest day of a call, and a call from an earlier day resets nothing |
| NlBudget.SerializedIsServe | crates/rbmp-server/src/mcp_server.rs:26-40 | calls that follow one another, by any threads, are runs of the threads with the effect of one call after the other |
| NlBudget.DailyLimit | crates/rbmp-server/src/mcp_server.rs:22-40 | in such a run with a clock that does not go back no day is granted more than 500,000 |

## Left out

- Redis, TCP, tokio, clocks, metrics and logging: they are steps, byte chunks and explicit times here.
- The per-peer route counters of the session, and the ids, times and peer details of emitted events.
- The YAML and Roto filter engines and their grammar: any verdict function stands for them.
- Path attributes other than AS_PATH, AS4_PATH, MULTI_EXIT_DISC and LOCAL_PREF: only their framing and whether they
  are accepted.
- Labelled, VPN, EVPN, BGP-LS, Flowspec, MVPN, SRv6 and capability decoders: many branches, each read off one line.
- SR policy candidate paths and segment lists around the segments: two more length-prefixed loops of the same kind.
- TABLE_DUMP_V2 records and the conversion of RIB events to MRT.
- The message parser behind the framing, load shedding and archiving: frames are delivered as bytes.
- DuckDB, Kafka and NATS sinks, HTTP and MCP handlers, the UI, the Python SDK, and everything cryptographic.
- HaElection.TakeoverBound: takes a connected tick as atomic; safety with the commands interleaved is in HaCommands.
- Update.ParseAttributeLoop: the decoders of the other interpreted attributes are any function that accepts or
  rejects a value.
- NlBudget.DailyLimitOfThreads: the two atomics are taken in program order; the loads and stores of the source are
  Relaxed, so that threads could also see the two reset stores the other way round.
- RateLimit.RateBound: exact reals, as for WindowBound.
- RateLimit.WindowBound: floating point rounding is not modelled, tokens are exact reals.
- Mrt.MrtReader.Next: what a failed read leaves in the input is taken to be nothing, as for an in-memory reader.
