# totpgate in Dafny

totpgate is a single-packet-authorization daemon: a UDP packet that carries a time-based one-time
password opens a firewall rule for its sender, for a limited time. This project models the daemon
from the bytes of the packet down to the bytes it sends to nftables and the verdict the installed
rules give, and proves what holds over every run.

Each C file keeps its own form. What it updates in place is a class or a method over an array
(`Sha1Stream.Context`, `Auth.ReplayTable`, `RateLimit.RateTable`, `Nlattr.Message`,
`NftMessages.Socket`, `Netlink.Link`, `DaemonProcess.Process`, the decoders of `SecretDecode`), and every such method is proved
against a function on values; the lemmas are about those functions.

## Main results

| theorem | in words |
|---|---|
| `Lifetime.LifetimeBound` | after any event that follows a prune check at time t every kernel rule has a deadline later than t - 5, even with more than 256 grants alive |
| `Lifetime.EveryRuleIsJustified` | whatever the clocks do, every rule goes back to a genuine packet of its own host |
| `DaemonProcess.Process.Serve` | on every sequence of events the in-place daemon follows the step machine, and the bytes it has sent to the kernel give every packet the verdict of the state's rules |
| `DaemonProcess.RunDaemon` | from startup on, after any events: a new connection that the bytes sent to the kernel let through has a genuine token of its host behind it, less than timeout + 5 s before any prune check; and every packet of a host whose grant found a free slot gets through until the grant ends |
| `System.GrantedHostConnects` | an accepted sender that found a free slot is let through until the timeout, also when other grants overflow the array |
| `System.ClientPacketGranted` | what the client sends is granted and opens the port, also when the two sides wrote the secret down differently |
| `AntiReplay.CountersIncrease`, `AntiReplay.RepeatAcceptedIff`, `Traces.TokenAcceptedTwice` | accepted counters strictly increase as long as no pruning cuts the host's probe path; when one does, the old token is accepted again, and only then; a run on which that happens |
| `AntiReplay.OneCounterTwoHosts`, `Traces.TokenServesTwoHosts` | on such runs one counter is accepted twice only from different hosts, and from those it is |
| `Replay.TableRefinesMap`, `Replay.SweepRefinesIff` | the 64-slot table is a map, exactly as long as no sweep cuts a path |
| `RateLimitRuns.NoUnjustifiedBlock`, `DaemonRates.ThresholdBlocksHost`, `RateLimitRuns.BlockLengths` | blocks are earned, enough refused packets do block, for exactly the due time, and the blocks have the closed form |
| `RateLimitRuns.SuccessLiftsBlockIff`, `Traces.BlockLifted` | exactly when another host's success ends a running block, and a run on which it does |
| `Reconcile.GrantSurvivesFlushIff`, `Traces.OverflowLosesGrant` | exactly when a grant outlives the next flush, and a run on which the array is full and a grant is lost |
| `Sha1Stream.DigestChunks`, `Sha1Vector.DigestOfAbc`, `Hmac.ComputeHmac` | streaming SHA-1 and the in-place HMAC are the standard's functions, which section 7.3 of RFC 3174 pins to its numbers |
| `NftMessages.Socket.Wrap`, `Netlink.Link.SetupInput`, `Firewall.DropsExactly` | the bytes sent parse back to the intended rules, and those rules drop exactly what they should |
| `Encode.DecodeInvertsEncode`, `Encode.Decode32Canonical`, `SecretDecode.DecodeSecret` | the decoders invert the RFC 4648 encoders, within the given capacity |

## What the code does differently from what is written down

- DOMAIN.md:186 has every token rejected that was already accepted in its window. The daemon remembers counters by source
  address, as DOMAIN.md:189-190 goes on to say, so the same bytes open the port to two hosts (`Traces.TokenServesTwoHosts`); on runs that cut no path of the first sender a counter is
  accepted twice only from different hosts (`AntiReplay.OneCounterTwoHosts`).
- The replay table frees slots without tombstones, so a sweep can hide an entry that it keeps. It does so exactly when an
  entry that is too old lies on the way to it (`Replay.Cuts`, a condition on the table, the time and the age):
  `Replay.PruneKeepsPathIff`, `Replay.SurvivorFoundIff`, `Replay.SweepRefinesIff` and, for the token, `AntiReplay.RepeatAcceptedIff`.
  `Traces.TokenAcceptedTwice` is a run of the daemon on which one datagram is accepted twice, for any two hosts with one
  home slot, and `Replay.SharedHome` shows that there are such hosts.
- The failure table does the same on a success: a running block of one host ends early exactly when the other host's entry lies
  on the way to its own, `RateLimitRuns.SuccessLiftsBlockIff`; `Traces.BlockLifted` is such a run.
- A grant made while all 256 tracking slots are taken reaches the kernel but not the array, and is lost with
  the next flush: `Reconcile.GrantSurvivesFlushIff`, with the run `Traces.OverflowLosesGrant`. The lifetime bound holds all the same.
- DOMAIN.md:249 says expired rules are deleted one by one. The code flushes the chain and inserts the
  unexpired rules again.
- DOMAIN.md:260 gives the backoff as min(max_block, max(min_block, 2 * previous)). The code computes it exactly when
  min_block does not exceed max_block, which the option parser does not check: `RateLimitRuns.DocumentedIff`.
- DOMAIN.md:255 ends a failure window when `window` seconds have passed, the code when more have: a failure does what is
  documented if and only if it does not come exactly `window` seconds after the first one (`RateLimitRuns.DocumentedFailureIff`).
- With max_fails at 1 the first failure of an address does not block it: `RateLimitRuns.FirstFailureNeverBlocks`.
- DOMAIN.md:73-74 promises an implicit leading zero for an odd number of hex digits. The code pads on the right
  (`SecretDecode.OddHexPadsRight`); the two agree exactly on strings of zeros (`SecretDecode.LeadingZeroIff`).
- DOMAIN.md:72 and DOMAIN.md:75 have invalid padding rejected. The code accepts too little of it and padding in front of more text
  (`Padding.LoosePaddingAccepted`); an accepted text is padded as the encoder pads it exactly under the condition of
  `Padding.PaddedIff`, for base32 `Padding.Padded32Iff`.
- DOMAIN.md:75-76 promises that white space inside base64 is handled. The code refuses it (`Encode.AcceptedCharacters`), so it
  does as documented exactly on texts without any and on those that do not decode either way (`Encode.WhiteSpaceIff`).
- The rule of DOMAIN.md:139-140 matches TCP; the rule the code inserts matches the source and the port bytes of any
  protocol. `Firewall.DropsExactly` shows that the verdicts are the intended ones all the same.
- DOMAIN.md:126 lists the established rule without an interface; the code restricts it to the selected one.

## Assumptions

- Time is a natural number of seconds. Where a lemma needs it, `Daemon.ClocksRun` says that wall and monotonic clock differ by
  a constant and never go backward; `EveryRuleIsJustified` and `RefusalIsJustified` need nothing of the kind.
- The timeout is at least 1 (src/parse_opts.c:213) where the lifetime bound needs it.
- A flush empties the chain. An insertion is taken or not, as the event says; one that is not taken leaves the kernel unchanged.
- The host is little-endian with a 64-bit `unsigned long`. 32-bit arithmetic wraps explicitly in fail_count, the
  doubling of the block, the token accumulator and the sequence numbers; the SHA-1 byte count wraps at 2^64, so the digest is
  the standard's for every message the standard defines.
- A packet event may hold any bytes; src/main.c:461 hands on none that are empty. A pass may be followed by any number of packets.
- Interface names have fewer than 16 bytes, none of them zero.
- The shift-and-or of base32 and base64 groups is written as arithmetic in base 32 and 64, where it stays below 2^40.
- `ChainRule.deadline` is bookkeeping of the model; the kernel does not hold it.
- The numbers of nftables constants are those of the Linux headers, which the repository includes and does not contain. The kernel's
  side (`Netlink.Request`, `Firewall.Exec`) states them as numbers of its own, apart from the constants the builders use.

## Model

| member | source | states |
|---|---|---|
| `DaemonProcess.Process.constructor` | src/main.c:270-286 | starts in the step machine's initial state, on a kernel that holds the input chain and no grant |
| `DaemonProcess.Setup` | src/main.c:270-308 | there is a daemon, with its own arrays, tables and link, in its initial state on a kernel with the input chain, if and only if the kernel took the six permanent rules |
| `DaemonProcess.Process.Insert` | src/netlink.c:683-725 | builds and sends the rule's bytes; if the kernel takes them its chain of that family grows by that rule and the next handle is returned, otherwise 0 and nothing changes |
| `DaemonProcess.Process.EmptyChain` | src/netlink.c:549-566 | the bytes sent empty allowed_ips of both families and leave the input chain alone |
| `DaemonProcess.Process.RuleTrack` | src/main.c:118-135 | the array becomes `Track` of the old one: first fit, silently nothing when full |
| `DaemonProcess.Process.RulePrune` | src/main.c:137-165 | array, chain and handles become `PruneRules` of the old state |
| `DaemonProcess.Process.RebuildChain` | src/main.c:151-164 | the flush and re-insertion loop computes `Rebuild`, whichever insertions fail |
| `DaemonProcess.Process.HandleOnePacket` | src/main.c:352-412 | the in-place sequence of check, parse, validate, insert and track is one `HandlePacket` step |
| `DaemonProcess.Process.CheckPrune` | src/main.c:427-438 | the prune scheduling is one `PruneCheck` step |
| `AntiReplay.PruneSchedule` | src/main.c:427-438 | in numbers: a pass less than 5 s after the last pruning leaves the whole state as it is; any other records its time, sweeps the replay table with age 3600 and prunes the rules at the wall-clock time |
| `AntiReplay.FirstPruning` | src/main.c:280-284 | no pass of the first five seconds changes anything |
| `DaemonProcess.Process.Serve` | src/main.c:414-470 | any sequence of passes and packets leaves exactly the state the step machine reaches, and the kernel's verdict on every packet, by the bytes it took, is that of the state's rules |
| `DaemonProcess.RunDaemon` | src/main.c:499-520 | setup and then any passes and packets: there is a daemon if and only if the permanent rules were taken; then, by the bytes sent, a new connection that gets through has a genuine token of its host less than timeout + 5 seconds before any prune check, and a host whose grant found a slot gets through until it ends |
| `Lifetime.AcceptedCarriesCode` | src/auth.c:135-158 | the counter a packet is accepted for is within one step of the daemon's, and the parsed token is its HOTP code |
| `Lifetime.AcceptedIsGenuine` | src/main.c:352-397 | an accepted packet is genuine for the very host that the rule names |
| `Lifetime.GrantKeeps` | src/main.c:397-403 | a grant keeps the invariant, tracked or not: an untracked rule is covered by a tracked one that ends no later |
| `Lifetime.RebuildKeeps` | src/main.c:151-164 | after the rebuild every chain rule is tracked, every tracked rule is unexpired and was tracked before, with address and expiry unchanged, even if insertions fail |
| `Reconcile.RebuildSlot` | src/main.c:152-163 | slot by slot: an ended rule is dropped, a re-inserted one gets a new handle and keeps the rest, and one whose re-insertion is refused stays active with its old handle |
| `Lifetime.PruneKeeps` | src/main.c:137-165 | a pruning keeps the invariant and raises its bound to the current time |
| `Lifetime.TickKeeps` | src/main.c:427-438 | a prune check keeps the invariant and raises its bound when it prunes |
| `Lifetime.RunKeeps` | src/main.c:118-165 | the invariant holds after every event of every run |
| `Lifetime.PrunedRecently` | src/main.c:433-437 | ever after a prune check, the last pruning is later than five seconds before that check |
| `Lifetime.LifetimeBound` | src/main.c:137-165 | after any event that follows a prune check at time t every kernel rule has a deadline later than t - 5 and a genuine packet of its host exactly `timeout` before that deadline, on every run, also with an overflowing array |
| `Lifetime.EveryRuleIsJustified` | src/main.c:352-412 | with no assumption on the clocks, every rule in the chain after every event goes back to an earlier packet of the same host that carried a valid code |
| `Reconcile.GrantAdds` | src/main.c:118-135 | a grant adds exactly one rule to the chain, and to the array if and only if a slot is free |
| `Reconcile.FlushInstallsTracked` | src/main.c:137-165 | after a flush the kernel holds exactly the unexpired tracked grants, with multiplicity, whatever it held before |
| `Reconcile.PruneDropsOnlyExpired` | src/main.c:137-165 | pruning a reconciled state removes the ended grants and no other, with multiplicity |
| `Reconcile.GrantSurvivesFlushIff` | src/main.c:124-135 | a grant outlives the next flush before its deadline if and only if the array had room |
| `Traces.OverflowLosesGrant` | src/main.c:118-165 | a run that fills the array, on which the next host's grant is accepted and installed, and is gone from the kernel with the first flush although it has not ended |
| `Reconcile.ChainIsTracked` | src/main.c:118-165 | without overflow and failed re-insertions, the chain is the multiset of tracked rules after every event of every run |
| `AntiReplay.SweepRemembers` | src/auth.c:87-96 | pruning an entry older than an hour forgets only counters that no later window reaches |
| `AntiReplay.AcceptedIsFresh` | src/auth.c:135-158 | an accepted counter is above the last one accepted for that address |
| `AntiReplay.RunRemembers` | src/auth.c:30-96 | after every event of every run the table knows an address's last accepted counter, or the counter is out of reach |
| `AntiReplay.CountersIncrease` | src/main.c:380-395 | the counters accepted for an address strictly increase over every run whose prunings cut none of its paths |
| `AntiReplay.OneCounterTwoHosts` | src/auth.c:135-158 | two packets accepted for one counter, on a run that cuts no path of the first one's sender, come from different hosts |
| `AntiReplay.RepeatAcceptedIff` | src/auth.c:87-96 | right after a pruning which the entry survives, its token is accepted a second time if and only if, before the pruning, an entry too old for it lay on the way to the entry |
| `Traces.TokenAcceptedTwice` | src/main.c:352-438 | for every two hosts with one home slot, the run on which the second host's datagram is accepted, a later pass sweeps the first one's entry, and the same datagram is accepted again |
| `Traces.SomeTokenAcceptedTwice` | src/main.c:352-438 | so for every configuration there is a run that accepts one datagram twice |
| `Traces.TokenServesTwoHosts` | DOMAIN.md:186-186 | for every two hosts, the run on which the same bytes are accepted from both |
| `AntiReplay.RunRecorded` | src/auth.c:49-80 | on every run, any removals included, what a slot holds was accepted earlier for that address |
| `AntiReplay.RefusalIsJustified` | src/auth.c:30-47 | on every run a counter refused as seen does not exceed one accepted earlier for that address |
| `ProbeTable.Probe` | src/auth.c:30-47 | the returned offset is the first free or matching slot of the circular path, 64 if there is none |
| `ProbeTable.IntactFinds` | src/auth.c:30-47 | under the probe-path invariant a slot holds an address if and only if the search ends in that slot |
| `ProbeTable.PutLookup` | src/auth.c:49-80 | a written record reads back, and every other intact address reads as before |
| `ProbeTable.PutIntact` | src/auth.c:49-80 | writing keeps the probe-path invariant of every address |
| `ProbeTable.PutAsMap` | src/auth.c:49-80 | writing is the map update |
| `ProbeTable.FullIffMapFull` | src/auth.c:71-79 | a write is refused if and only if the address is new and the map already has 64 addresses |
| `ProbeTable.FreeIntact` | src/ratelimit.c:100-115 | freeing slots keeps an address's probe-path invariant if and only if none of the slots it frees lies on the path of an entry of that address which it keeps |
| `ProbeTable.FreeLookup` | src/ratelimit.c:100-115 | under that condition a search finds exactly the surviving entry |
| `ProbeTable.SeveredLookup` | src/ratelimit.c:100-115 | otherwise the address reads as absent, and the next record of it goes to another slot than the one that still holds it |
| `Replay.PruneKeepsPathIff` | src/auth.c:87-96 | pruning keeps the invariant of one address if and only if, before it, no entry that is too old lies on the way to an entry of that address that is not |
| `Replay.PruneKeepsPathsIff` | src/auth.c:87-96 | pruning keeps the invariant of the whole table if and only if, before it, no entry that is too old lies on the way to one that is not |
| `Replay.SurvivorFoundIff` | src/auth.c:87-96 | a surviving entry is still found if and only if no entry that goes lay on the way to it; otherwise it reads as absent and its address can be recorded anew, in another slot |
| `Replay.StepRefines` | src/auth.c:30-96 | each operation on an intact table has the answer and the effect of the map operation |
| `Replay.SweepRefines` | src/auth.c:87-96 | a sweep that cuts no path is the filter of the map |
| `Replay.SweepRefinesIff` | src/auth.c:87-96 | a sweep of an intact table is the filter of its map if and only if it cuts no path |
| `Replay.TableRefinesMap` | src/auth.c:23-96 | from a reset, every sequence of lookups, records and path-keeping sweeps answers exactly as a map of up to 64 addresses |
| `Replay.SweepHidesEntry` | src/auth.c:87-96 | on the table alone: for every two addresses with one home slot, a sweep hides the younger entry, which is still in its slot |
| `Replay.SharedHome` | src/addr.h:32-46 | two hosts whose addresses share a home slot exist |
| `Auth.DecimalBound` | src/auth.c:109-133 | n digits denote a number below 10^n |
| `Auth.EightDigits` | src/auth.c:118-124 | the 32-bit accumulator never wraps on an accepted token |
| `Auth.ParseToken` | src/auth.c:109-133 | accepts exactly the packets of six to eight bytes that are all between '0' and '9', and returns the number they denote |
| `Auth.ParseExample` | DOMAIN.md:107-107 | the packet "482639" carries the token 482639 |
| `Auth.AcceptsIff` | src/auth.c:135-158 | a token is accepted for c if and only if c is the smallest counter of the window with that code, is above the recorded one and finds room; c is then recorded, and a refusal changes nothing |
| `Auth.ReplayTable.Reset` | src/auth.c:82-85 | empties the table |
| `Auth.ReplayTable.Seen` | src/auth.c:30-47 | the probing loop answers as the lookup on the value of the table |
| `Auth.ReplayTable.RecordSeq` | src/auth.c:49-80 | the table becomes `Put` of the old one; fails exactly when no slot of the path is free or the address's own |
| `Auth.ReplayTable.Sweep` | src/auth.c:87-96 | the table becomes `Prune` of the old one |
| `Auth.ReplayTable.ValidateToken` | src/auth.c:135-158 | the drift loop returns and records what `Validate` says, to which `AcceptsIff` gives the meaning |
| `RateLimit.RateTable.Check` | src/ratelimit.c:27-44 | the probing loop lets a packet through if and only if the table's entry does not block at that time |
| `RateLimit.RateTable.Count` | src/ratelimit.c:74-87 | exactly one entry changes, to `FailEntry` of itself |
| `RateLimit.RateTable.RecordFailure` | src/ratelimit.c:59-98 | the table becomes `Fail` of the old one, with a full path left alone |
| `RateLimit.RateTable.Forgive` | src/ratelimit.c:100-115 | the table becomes `Success` of the old one: at most the found slot is freed |
| `RateLimitRuns.RunBacked` | src/ratelimit.c:59-98 | on every run each entry's count is backed by as many failures of its own address since first_fail, and each block by a full window of them |
| `RateLimitRuns.RunDurations` | src/ratelimit.c:46-57 | every duration ever stored is a term of the backoff sequence |
| `RateLimitRuns.NoUnjustifiedBlock` | src/ratelimit.c:27-115 | on every run, removals included, a rejected address has at least max_fails failures of its own in one window, and its block, counted from the last of them, is not over; that block is the k-th of a series of blocks the address earned one after the other, and lasts the k-th duration |
| `RateLimitRuns.BackoffClosedForm` | src/ratelimit.c:46-57 | the k-th duration is min(min_block * 2^(k-1), max_block) and its 32-bit doubling does not wrap |
| `RateLimitRuns.DocumentedIff` | DOMAIN.md:260-260 | the code computes the documented durations if and only if min_block does not exceed max_block |
| `RateLimitRuns.DocumentedFailureIff` | DOMAIN.md:254-261 | on every entry a run can hold, a failure does the whole of what is documented if and only if it does not come exactly `window` seconds after the first failure of the window |
| `RateLimitRuns.EntryBlocks` | src/ratelimit.c:74-87 | along the life of an entry the k-th block has the k-th duration, blocks are disjoint, and the entry carries the latest one |
| `RateLimitRuns.BlockLengths` | src/ratelimit.c:74-87 | the i-th block of an entry, counted from 0, lasts min(min_block * 2^i, max_block) |
| `RateLimitRuns.TableFollowsEntry` | src/ratelimit.c:59-98 | among arbitrary traffic of other addresses, the table's entry of an undisturbed address goes through exactly that life |
| `RateLimitRuns.KeepsEntry` | src/ratelimit.c:59-115 | one operation changes the entry of an intact address only if it is that address's own failure |
| `RateLimitRuns.CountsUp` | src/ratelimit.c:59-98 | below the threshold the entry counts the failures of the window and blocks nothing |
| `RateLimitRuns.ThresholdBlocks` | src/ratelimit.c:27-98 | after the first max_fails failures in a window the address is rejected at every check for exactly min_block seconds from the last one and let through at their end, through any operations in between that leave its entry reachable |
| `RateLimitRuns.SuccessLiftsBlockIff` | src/ratelimit.c:100-115 | another host's success ends a running block if and only if that host's entry lies on the way to the blocked one's |
| `RateLimitRuns.SuccessKeeps` | src/ratelimit.c:100-115 | otherwise the entry, and the invariant of its address, are as before |
| `Traces.BlockLifted` | src/main.c:369-395 | for every two hosts with one home slot and every usable configuration, the run on which the second is blocked for packets without a token and an accepted packet of the first ends the block at once |
| `RateLimitRuns.FirstFailureNeverBlocks` | src/ratelimit.c:90-97 | the first failure of an address blocks it at no time, whatever max_fails is |
| `DaemonRates.RunRate` | src/main.c:369-395 | the daemon's failure table is the one its refused and accepted packets produce |
| `DaemonRates.OpsFromEvents` | src/main.c:369-395 | those operations are packets of the same address, in the order of time |
| `DaemonRates.BlockedHostFailed` | src/main.c:369-372 | on every run of the daemon a host whose packets are dropped unread has had max_fails of its own packets refused within one window, the last of them less than a block ago, the block being the k-th it earned in a row and lasting the k-th duration |
| `DaemonRates.HostCounts` | src/main.c:369-392 | below the threshold the entry of a host counts its refused packets and blocks nothing, through any other traffic that leaves the entry reachable |
| `DaemonRates.ThresholdBlocksHost` | src/main.c:369-392 | once max_fails packets of a host are refused within one window, every further packet of it is dropped and leaves the daemon's state as it is, for exactly min_block seconds from the last of them |
| `Addr.KeyNamesHost` | src/main.c:325-350 | key and rule address name the sending host, and two senders share a key if and only if they are the same host, IPv4-mapped or not |
| `Addr.ComputeHash32` | src/addr.h:32-46 | the folding loop computes the xor of the family and the four words, then the mixing steps |
| `Addr.AvalancheMeans` | src/addr.h:41-45 | the three mixing steps xor the word with itself shifted right by every multiple of four |
| `Addr.HomeExample` | src/addr.h:32-46 | the slot of 192.0.2.1 |
| `Sha1Spec.ChainPrefix` | src/sha1.c:69-97 | the chaining value of the first blocks does not depend on what follows them |
| `Sha1Stream.Context.constructor` | src/sha1.c:59-67 | a fresh context has absorbed the empty message |
| `Sha1Stream.Context.LoadBlock` | src/sha1.c:13-18 | the first sixteen words are the block's big-endian words |
| `Sha1Stream.Context.ExpandSchedule` | src/sha1.c:13-21 | the word array is the message schedule of section 6.1 of RFC 3174 |
| `Sha1Stream.Context.ProcessBlock` | src/sha1.c:7-57 | the 80-round loop is the compression of section 6.1 of RFC 3174 |
| `Sha1Stream.Context.Update` | src/sha1.c:69-97 | a context that has absorbed m has absorbed m + data afterwards, wherever the block boundaries fall |
| `Sha1Stream.Context.AbsorbRest` | src/sha1.c:87-97 | the block loop and the tail copy absorb whatever is left, block by block |
| `Sha1Stream.Context.Final` | src/sha1.c:99-128 | returns the RFC 3174 digest of everything absorbed, in both padding cases |
| `Sha1Stream.Context.WriteLength` | src/sha1.c:116-118 | stores the bit count big-endian behind the first 56 bytes |
| `Sha1Stream.PadOneBlock` | src/sha1.c:99-128 | with at most 55 bytes buffered the padding of section 4 of RFC 3174 closes the current block |
| `Sha1Stream.PadTwoBlocks` | src/sha1.c:99-128 | with 56 or more it takes one more block |
| `Sha1Stream.Digest` | src/sha1.c:130-137 | the one-shot call is the RFC 3174 digest |
| `Sha1Stream.DigestChunks` | src/sha1.c:69-128 | every way of cutting a message into updates gives the digest of the concatenation |
| `Sha1Vector.DigestOfAbc` | test/test_sha1.c:33-40 | the digest of "abc", followed through the schedule and all eighty rounds, is a9993e36 4706816a ba3e2571 7850c26c 9cd0d89d |
| `Sha1Spec.ChooseSelects` | src/sha1.c:31-34 | where a bit of b is set the result is c's, elsewhere d's |
| `Sha1Spec.MajorityAgrees` | src/sha1.c:37-40 | where two of the words agree the result is theirs |
| `Sha1Spec.RotlRotates` | src/sha1.c:5-5 | the macro is the circular shift of section 3 of RFC 3174 |
| `Sha1Spec.ConstantRoots` | src/sha1.c:31-44 | the four constants are the whole parts of 2^30 times the square roots of 2, 3, 5 and 10 |
| `Hmac.XorInPlace` | src/hmac.c:6-45 | one in-place loop xors every byte of the key block |
| `Hmac.HashPair` | src/hmac.c:6-45 | two updates and a final give the digest of the concatenation |
| `Hmac.ComputeHmac` | src/hmac.c:6-45 | xor, undo and xor on one buffer gives H(K^opad, H(K^ipad, text)) of section 2 of RFC 2104, for keys of every length |
| `Hmac.HmacMeans` | src/hmac.c:6-45 | in numbers: a key longer than 64 bytes is hashed, zeros fill it up, the pads are 0x36 inside and 0x5c outside |
| `Totp.TruncateMeans` | src/totp.c:32-38 | truncation reads the four bytes at the place that the low four bits of byte 19 of the MAC name, all inside the MAC, and yields a 31-bit number (section 5.3 of RFC 4226) |
| `Totp.TruncateExample` | src/totp.c:32-38 | the first MAC of appendix D of RFC 4226 gives 0x4c93cf18 and the code 755224 |
| `Totp.HotpMeans` | src/totp.c:17-39 | byte i of what is authenticated is the counter divided by 256^(7 - i), and the code is the truncated MAC modulo a power of ten |
| `Auth.ModulusIs` | src/totp.c:6-15 | that power is 10^digits for six to eight digits and 10^6 for any other number |
| `Totp.Hotp` | src/totp.c:17-39 | the code is below the modulus of its digits |
| `Totp.Generate` | src/totp.c:17-44 | the counter loop, the MAC and the truncation compute HOTP of the big-endian counter |
| `Totp.FirstMatchIsLeast` | src/totp.c:46-67 | the reference search returns a counter of the range with that code, if there is one, and the smallest |
| `Totp.Validate` | src/totp.c:46-67 | the drift loop returns the smallest matching counter of the window, skipping counters below zero |
| `Nlattr.SerializeAligned` | src/netlink.c:88-121 | every attribute takes a multiple of four bytes |
| `Nlattr.ReadsHeader` | src/netlink.c:88-121 | in front of anything, the header of a written attribute gives its exact length, its type and its payload |
| `Nlattr.ParseInverts` | src/netlink.c:88-121 | parsing the bytes of any attribute trees gives exactly those trees |
| `Nlattr.Message.PutAttr` | src/netlink.c:88-105 | appends one leaf to the tree under construction, the buffer being its exact image |
| `Nlattr.Message.BeginNest` | src/netlink.c:107-116 | opens a nested attribute inside the innermost open one |
| `Nlattr.Message.EndNest` | src/netlink.c:118-121 | the patched length closes the innermost nest: its bytes become those of the finished attribute, and nothing else moves |
| `NftBuild.AddImmediateVerdict` | src/netlink.c:147-165 | adds exactly the tree of the verdict instruction |
| `NftBuild.AddImmediateVerdictChain` | src/netlink.c:167-186 | adds exactly the tree of the jump instruction |
| `NftBuild.AddPayloadLoad` | src/netlink.c:188-201 | adds exactly the tree of the load instruction |
| `NftBuild.AddCmp` | src/netlink.c:203-217 | adds exactly the tree of the comparison |
| `NftBuild.AddMeta` | src/netlink.c:219-243 | adds exactly the tree of the meta load |
| `NftBuild.AddCtState` | src/netlink.c:245-256 | adds exactly the tree of the conntrack load |
| `NftBuild.AddBitwise` | src/netlink.c:324-344 | adds exactly the tree of the mask-and-xor instruction |
| `NftBuild.WriteRule` | src/netlink.c:568-725 | the message holds table, chain and the trees of the rule's instructions in order, and nothing else |
| `NftRules.InstrReads` | src/netlink.c:147-256 | an instruction's tree reads back as that instruction and no other |
| `NftRules.RuleReads` | src/netlink.c:568-725 | a rule's attributes read back as its table, its chain and its whole program |
| `NftRules.RuleSmall` | src/netlink.c:568-725 | every length of a rule fits its 16-bit field and the rule fits the buffer |
| `NftMessages.FixedReads` | src/netlink.c:61-86 | the fixed part of a message reads back, field by field |
| `NftMessages.BatchReads` | src/netlink.c:350-390 | begin, message and end parse back as three messages with exactly their headers and attributes |
| `NftMessages.Socket.NextSeq` | src/netlink.c:77-86 | sequence numbers count up in 32 bits |
| `NftMessages.Socket.Wrap` | src/netlink.c:371-390 | the batch sent parses back to begin, the rule with exactly the written attributes, and end, is 4-aligned, and fits 4096 bytes |
| `NftBuild.WriteFlush` | src/netlink.c:549-566 | the message names table and chain, and nothing else |
| `NftRules.FlushReads` | src/netlink.c:549-566 | which read back |
| `Netlink.RuleBatch` | src/netlink.c:371-390 | the batch fits its buffer and asks for exactly this program at the end of this chain of this family |
| `Netlink.FlushBatch` | src/netlink.c:549-566 | the batch asks to empty exactly this chain of this family |
| `Netlink.Link.Send` | src/netlink.c:371-390 | a rule that the kernel takes changes exactly the one chain it is for and uses up one handle; one it does not take changes nothing |
| `Netlink.Link.RuleInsert` | src/netlink.c:683-725 | for every address, port and interface: the handle or 0; a taken batch asks, under the family number of the address, to append the rule to allowed_ips; and the kernel holds one more grant of that family, or the same |
| `Netlink.FamilyOf` | src/netlink.c:690-696 | the family number of a rule is that of its address, 2 or 10 |
| `Netlink.Link.FlushChain` | src/netlink.c:549-566 | allowed_ips of both families is empty afterwards and the input chain unchanged |
| `Netlink.Link.AppendBoth` | src/netlink.c:568-681 | both families' input chains grow by exactly this program, by a batch for family 2 and then one for family 10; a failed send stops it |
| `Netlink.Link.SetupInput` | src/main.c:169-208 | after the flush, the established, jump and drop rules are in this order in both families if and only if all are taken; otherwise setup stops with a beginning of that chain |
| `Netlink.CarriedVerdict` | src/main.c:169-208 | the verdict that the batches taken amount to is the verdict of the input chain and the grants they carry |
| `Firewall.IifMeans` | src/netlink.c:412-418 | the interface match passes if and only if the packet came in on the configured interface; NULL and "" pass everything |
| `Firewall.PortMeans` | src/netlink.c:628-629 | the port match passes if and only if the transport header carries the port at offset 2 |
| `Firewall.SourceMeans` | src/netlink.c:704-712 | the source match passes if and only if the packet comes from that address |
| `Firewall.EstablishedMeans` | src/netlink.c:568-607 | the established rule accepts exactly established or related packets on the interface |
| `Firewall.DropMeans` | src/netlink.c:609-639 | the drop rule drops exactly TCP packets to the port on the interface |
| `Firewall.AllowMeans` | src/netlink.c:683-725 | the inserted rule accepts exactly packets of that source to the port on the interface |
| `Firewall.AllowedMeans` | DOMAIN.md:130-140 | the allowed_ips chain accepts exactly what some granted address admits, in any order of the rules |
| `Firewall.DropsExactly` | DOMAIN.md:111-144 | the installed chains drop a packet if and only if it is TCP to the target port on the interface, not established or related, and from no granted address; whatever the registers held |
| `Encode.GroupRoundTrip` | src/encode.c:148-187 | decoding a group inverts encoding it |
| `Encode.AlphabetIs` | src/encode.c:17-45 | both alphabets, character by character |
| `Encode.GroupCanonical` | src/encode.c:148-187 | a base32 group that decodes is the one its bytes encode to |
| `Encode.DecodeInvertsEncode` | src/encode.c:148-279 | base32 and base64 decoding invert their encoders on every byte string, padded or not |
| `Encode.Decode32AnyCase` | src/encode.c:17-28 | base32 decoding inverts the encoder for every mix of letter case |
| `Encode.DecodeCaseBlind` | src/encode.c:17-28 | letter case makes no difference to the result, refusals included |
| `Encode.Decode32Canonical` | src/encode.c:115-187 | an accepted string without padding is, in upper case, the unpadded encoding of what it decodes to |
| `Encode.AcceptedCharacters` | src/encode.c:115-279 | an accepted text consists of alphabet and padding characters only |
| `Encode.WhiteSpaceIff` | DOMAIN.md:75-76 | base64 decoding agrees with decoding the text without its white space if and only if there is none, or the text without it does not decode either |
| `Padding.LoosePaddingAccepted` | src/encode.c:103-146 | a short group with any amount of padding at the end, and a padded group in front of any accepted text, are accepted and decode to their bytes |
| `Padding.GroupCanonicalIff` | src/encode.c:148-279 | a group that decodes is the group its bytes encode to if and only if its spare bits are zero |
| `Padding.PaddedIff` | DOMAIN.md:72-76 | an accepted text of either scheme is, up to case, the padded encoding of what it decodes to if and only if its length is a multiple of the group, no padding comes before the last group and that group leaves no stray bits |
| `Padding.Padded32Iff` | DOMAIN.md:72-72 | for base32 the first two suffice, since stray bits are refused |
| `SecretDecode.HexInverts` | src/encode.c:50-82 | hex decoding inverts the encoder, in either case |
| `SecretDecode.HexAccepts` | src/encode.c:50-82 | accepted are exactly the strings of hex digits |
| `SecretDecode.HexSame` | src/encode.c:50-82 | two texts of whole bytes decode alike if and only if their digits have the same values |
| `SecretDecode.OddHexPadsRight` | src/encode.c:50-82 | an odd number of digits decodes as if a zero followed |
| `SecretDecode.LeadingZeroIff` | DOMAIN.md:73-74 | the documented leading zero agrees with the code if and only if all digits are zero |
| `SecretDecode.DecodeHex` | src/encode.c:50-82 | delivers the decoded bytes if they fit, refuses otherwise, and touches nothing beyond the capacity |
| `SecretDecode.ReadRun` | src/encode.c:119-142 | reads the values of the longest run of alphabet characters, up to a group |
| `SecretDecode.ReadGroupAt` | src/encode.c:115-146 | reads the group the reference reader reads, zero-filled, and moves forward by what it takes |
| `SecretDecode.SkipPadding` | src/encode.c:103-113 | succeeds if and only if padding follows up to the group or the end of the input |
| `SecretDecode.CollectBits` | src/encode.c:148-187 | the loop computes the group's value in base 32 or 64, which stays below 2^40 or 2^24 |
| `SecretDecode.StoreBytes` | src/encode.c:148-187 | stores the group's bytes, most significant first, and nothing else |
| `SecretDecode.DecodeGroupInto` | src/encode.c:148-187 | one turn delivers the group's bytes behind the earlier ones or refuses; earlier bytes and those beyond the capacity stay |
| `SecretDecode.DecodeInto` | src/encode.c:148-279 | both decoders terminate and deliver exactly the decoding if it fits the capacity, touching nothing beyond it |
| `SecretDecode.PrefixIsNotBase32` | src/encode.c:307-326 | a text with a prefix never decodes as base32 |
| `SecretDecode.DecodeSecret` | src/encode.c:283-326 | the three attempts return what exactly the decoder named by the prefix returns |
| `SecretDecode.AnyWritingDecodes` | src/encode.c:307-326 | every way of writing a secret, plain or behind "hex:" or "b64:", decodes to the same bytes |
| `SecretDecode.PrefixNames` | src/encode.c:283-326 | a text behind "hex:" is read as hexadecimal, one behind "b64:" as base64, any other as base32, and each yields the secret that was written |
| `SecretDecode.HelloSecrets` | DOMAIN.md:61-65 | "hex:48656c6c6f", "b64:SGVsbG8=" and "JBSWY3DP" are one and the same secret, each in its encoding |
| `Client.FormatReads` | src/client.c:192-193 | the printed digits denote the number |
| `Client.FormatParses` | src/client.c:192-193 | the daemon parses every token the client prints |
| `System.RunUniform` | src/main.c:397-397 | on every run NULL and "" as interface arguments stand for the same configured name |
| `System.VerdictMeaning` | src/main.c:169-208 | the verdict while the daemon's chain is installed is DROP exactly for a new connection to the port that no rule admits |
| `System.WireVerdict` | src/main.c:169-208 | so is the verdict of a kernel that took the bytes of the input chain and of the daemon's rules |
| `System.AccessNeedsRecentToken` | src/main.c:118-165 | after any event that follows a prune check, on every run, a new connection that gets through comes from a host that sent a genuine token less than timeout + 5 seconds before that check |
| `System.SentRulesGuard` | src/main.c:118-165 | the same of a kernel that took the bytes of the run's rules |
| `System.PruneVerdicts` | src/main.c:137-165 | after pruning a reconciled state the verdict is DROP exactly for a new connection that no unexpired rule admits, and differs from the verdict before only where every rule that admitted the packet has expired |
| `System.PacketChain` | src/main.c:352-412 | a packet changes the chain by exactly one rule, at the end, if it is accepted and taken, and not at all otherwise |
| `System.GrantStaysOpen` | src/main.c:118-165 | on every run a granted rule that found a free slot stays in the chain through every event until its deadline, whatever other hosts are granted, if the re-insertions in that time are taken |
| `System.GrantedHostConnects` | src/main.c:118-165 | and for that long the firewall accepts every packet of the granted host |
| `System.ClientAccepted` | src/client.c:192-193 | a client's packet is accepted when the counters differ by at most one, the sender is not blocked, no recorded counter reaches the window and the table has room |
| `System.ClientPacketGranted` | src/main.c:352-403 | under these conditions it is granted in the kernel chain and the verdict on every packet of its sender is ACCEPT, whichever encodings of the secret the two sides were given |

## Left out

- Sockets, epoll, signals, syslog and the reading of the secret file: the model starts at a received packet or a loop pass. That a pass comes at least once a second is not modelled.
- `nl_batch_talk` and `process_batch_replies`: the kernel's answer is the flag of the event.
- Creation and removal of tables and chains (`netlink_init`, `netlink_create_family_batch`, `netlink_cleanup`) and `netlink_rule_delete`, which the daemon does not call: they would only add more messages of the same kind.
- src/privdrop.c, src/seccomp.c, src/udp.c, src/util.c and option parsing: thin wrappers and range checks.
- Strength of the cryptography: HOTP is a deterministic function here.
- The moment between the flush and the last re-insertion of a pruning, when live grants are missing from the kernel: a pruning is one step.
- Refinement of a map by either table across removals that cut a path: it is false there, and the one-sided lemmas cover those runs.
- Wrap-around of the 64-bit handle and TOTP counter, and the family field of a tracked rule, which is never read.
- NftBuild.WriteRule: the four rule builders are one method over the list of their builder calls; the fixed header part of the buffer is written by NftMessages.Socket.Wrap and not in place.
- Sha1Stream.Context.Update: memcpy sources are values, so an input that overlaps the context's own buffer is not modelled.
