# rust-reality: verified models

Dafny models of the parts of rust-reality whose correctness depends on whole runs rather than on one
function: admission control, the GeoIP index, the rotating log, dual-stack dialing, the SOCKS5 inbound
and the session protocols. `dafny verify dfyconfig.toml` checks all of it.

Each component has a specification on values (datatypes, step functions and the lemmas about them) and,
where the program updates things in place, classes and loops proved equal to that specification.

| file | component |
|---|---|
| `CeilingSemaphore.dfy` | soft-ceiling semaphore as interleaved atomic steps |
| `RateGate.dfy` | lock-free GCRA dial-rate gate, sequential and interleaved |
| `KnobHysteresis.dfy`, `AdaptiveController.dfy` | hysteresis of one knob; the controller over the live pools and the gate |
| `PrefixTrie.dfy`, `Protobuf.dfy`, `GeoIp.dfy` | arena trie, protobuf wire reader, CIDR sets |
| `RotatingLog.dfy` | rotating log file: history, bounds, and the rename, delete and prune loops |
| `FamilyHealth.dfy`, `DialPlanner.dfy` | address-family health and failover, probe claims, address planning |
| `Socks5.dfy`, `Socks5Inbound.dfy` | SOCKS5 codec and the incremental handshake reader |
| `RawRelay.dfy` | two-direction raw-relay commitment and rendezvous |
| `LineSelection.dfy` | LINE health and stickiness |
| `Words.dfy` | fixed-width arithmetic, byte strings and shared wrappers |

## What the models assume

- Atomics are sequentially consistent; the code uses relaxed and acquire/release orderings. The semaphore,
  the rate gate and the probe claim are modelled step by step, with every interleaving of the steps a run.
  The other family-health operations are one step each.
- Clocks, sampled utilization, route detection and the end of a transport race are inputs. Histories
  quantify over all of them.
- One rate change at a time: the controller that stores burst, interval and rate does not race itself.
- LINE sessions run one after another, although `sticky` and `faults` are shared atomics.
- Integers are unbounded; saturation, wrap-around and bit masks are written out.
- The log's file system is a map from rotation index to bytes. Files are at most 2^57 bytes, so that the
  64-bit sums over at most 65 files are exact. Configured limits are far smaller.

## Where code and comments differ

The models follow the code.

- `src/runtime/ceiling.rs:107-113` calls the rollback branch unreachable. It is reachable for every positive
  hard bound (`RollbackReachable`), exactly while held and half-dropped permits use up the hard bound
  (`RollbackExactly`): dropping a permit decrements the counter before the semaphore gets its permit back.
- `src/runtime/ceiling.rs:82-84` says a concurrent lowering can admit one extra acquirer. It can admit as many
  as had read the older ceiling (`LoweredCeilingHolds`), and for every n some run admits n of them
  (`LateAdmissionsReach`).
- `src/runtime/admission.rs:249-253` says a change of rate is bounded by both rates and grants no retroactive
  burst. Bursts are rounded up to whole intervals, so lowering the rate can admit one more take at an instant
  whose burst was spent (`RateChangeAdmitsMoreExactly`, `SlowerRateLeavesRoom`), and the bound that
  holds through changes is that of the fastest rate (`RatesUpTo`).
- `src/runtime/adaptive.rs:239` says a knob is always within its range. A startup value of 0 is the one
  exception (`NewKnobInRangeExactly`), and its first critical tick takes it above its bound (`BelowHardExactly`).

## Model

| member | source | states |
|---|---|---|
| CeilingSemaphore.StepKeepsConsistent | src/runtime/ceiling.rs:85-115 | every atomic step of acquire, drop and set_ceiling keeps: counter = counted + held + rolling-back attempts, available + held + half-dropped permits = hard bound, counter and ceiling within the hard bound |
| CeilingSemaphore.RunKeepsConsistent | src/runtime/ceiling.rs:41-115 | the same accounting after every interleaving from any consistent pool |
| CeilingSemaphore.ReachableIsConsistent | src/runtime/ceiling.rs:50-115 | the same from a new pool, for any hard bound, number of attempts and sequence of steps |
| CeilingSemaphore.DecrementNeverWraps | src/runtime/ceiling.rs:41-45 | wherever a drop or rollback is due, the counter is at least 1, so fetch_sub never wraps |
| CeilingSemaphore.RollbackExactly | src/runtime/ceiling.rs:102-113 | the semaphore refuses a counted attempt if and only if held and half-dropped permits equal the hard bound, which needs a drop between its two steps; otherwise the attempt gets its permit |
| CeilingSemaphore.RollbackReachable | src/runtime/ceiling.rs:107-113 | for every positive hard bound, a run that takes the rollback branch |
| CeilingSemaphore.QuiescentCountersAgree | src/runtime/ceiling.rs:36-45 | with every attempt at rest, both counters equal the permits held |
| CeilingSemaphore.SoloAcquire | src/runtime/ceiling.rs:85-115 | an uninterrupted attempt, new or refused before, is refused at the ceiling, rolls back without a permit, and is admitted otherwise |
| CeilingSemaphore.DropReturnsPermit | src/runtime/ceiling.rs:36-45 | the two steps of a drop leave the slot idle, one permit more available and the counter one lower, and nothing else changed |
| CeilingSemaphore.RollBackReturnsCount | src/runtime/ceiling.rs:107-113 | a rollback ends refused with the counter one lower and no permit touched |
| CeilingSemaphore.AcquireThenDrop | src/runtime/ceiling.rs:36-115 | an uninterrupted acquire and its drop leave a pool with room exactly as it was |
| CeilingSemaphore.DroppedPermitIsReused | src/runtime/ceiling.rs:36-115 | for every positive hard bound, after one attempt acquired and dropped, any attempt that acquires holds a permit |
| CeilingSemaphore.AttemptFinishes | src/runtime/ceiling.rs:36-115 | from any phase, an attempt that runs on comes to rest, whatever stale counter it had seen, and the others keep their phases |
| CeilingSemaphore.NothingLeaks | src/runtime/ceiling.rs:36-115 | after any interleaving, letting every attempt finish leaves the counter at 0 and all permits available |
| CeilingSemaphore.LoweredCeilingHolds | src/runtime/ceiling.rs:72-101 | after the ceiling drops to c, admissions at or above c number at most the attempts that had read a higher ceiling and were undecided |
| CeilingSemaphore.LateAdmissionsReach | src/runtime/ceiling.rs:80-101 | that bound is met: for every n, a run admitting n attempts after the ceiling was lowered to 0 |
| CeilingSemaphore.HeldUntilDropped | src/runtime/ceiling.rs:72-78 | no step other than its own drop ends a held permit |
| CeilingSemaphore.RacersSplitExactly | src/runtime/ceiling.rs:85-115 | however many acquirers race, once all are decided exactly min(ceiling, hard bound, attempts) hold permits |
| RateGate.TimingIsConservative | src/runtime/admission.rs:215-222 | the integral interval never undercuts the rate and the burst is one second's worth, rounded up by less than the rate |
| RateGate.DialRateGate.constructor | src/runtime/admission.rs:237-246 | a new gate has the timing of its rate and an empty reservation |
| RateGate.DialRateGate.SetRate | src/runtime/admission.rs:254-260 | the timing becomes that of the new rate; the reservation is outside the frame |
| RateGate.DialRateGate.TryTakeAt | src/runtime/admission.rs:271-297 | the compare-and-exchange loop, through any number of spurious failures, admits or denies as the one-step specification does, and moves the reservation only when it admits |
| RateGate.GateIsLeakyBucket | src/runtime/admission.rs:224-297 | for every timing and every sequence of clock readings, the gate admits exactly the takes a bucket admits that drains one nanosecond each nanosecond, takes one interval a take, and holds one burst within the 64-bit time domain |
| RateGate.ZeroRateDenies | src/runtime/admission.rs:215-275 | a gate at rate 0 admits nothing |
| RateGate.IdleBurst | src/runtime/admission.rs:271-297 | an idle gate admits at one instant exactly min(attempts, rate), or what is left of the time domain if that is less |
| RateGate.SoloTake | src/runtime/admission.rs:271-297 | the interleaved attempt, run alone, is the sequential one |
| RateGate.ContendedTakeDecides | src/runtime/admission.rs:278-295 | in every interleaving, an attempt with however stale a view, once left alone, decides as if it had just loaded the reservation: a lost exchange costs it nothing |
| RateGate.RateChangeCompletes | src/runtime/admission.rs:254-260 | the three stores of a rate change end at the timing and rate asked for, and move neither the reservation nor any attempt |
| RateGate.StepAdvances | src/runtime/admission.rs:279-295 | the reservation never decreases; an admission moves it one interval past max(reservation, reading), within reading + burst and the 64-bit domain |
| RateGate.WindowBound | src/runtime/admission.rs:271-297 | in every interleaving, stale readings included, n admissions with one timing and readings in [s, t] satisfy n * interval <= (t - s) + burst |
| RateGate.RateHolds | src/runtime/admission.rs:248-297 | after any history, under any rate changes and interleaving, the admissions that use the timing of rate r, or a longer interval with no larger a burst, and readings in [s, t], number at most r + (t - s) * r / 10^9 |
| RateGate.StandingRateHolds | src/runtime/admission.rs:248-297 | while the gate stands at rate r, every take begun since then falls under that bound, later takes of slots that were busy at the start included |
| RateGate.StandingRateHoldsForAll | src/runtime/admission.rs:248-297 | all takes while rate r stands exceed that bound by at most one for each slot busy with an older timing at the start |
| RateGate.RatesUpTo | src/runtime/admission.rs:248-297 | over every run whose rates never exceed r, all admissions with readings in [s, t], whatever old and new timings they mix, number at most r + (t - s + r - 1) * r / 10^9 |
| RateGate.RateChangeAdmitsMoreExactly | src/runtime/admission.rs:248-297 | after a full burst at rate r, setting rate q admits another take at the same instant if and only if the burst of q exceeds that of r by an interval of q, within the time domain |
| RateGate.OneTakeMore | src/runtime/admission.rs:254-297 | where that holds, r takes at rate r are followed by one more at the same instant |
| RateGate.SlowerRateLeavesRoom | src/runtime/admission.rs:215-222 | it holds for lowering 50 000 takes a second to 49 999 |
| RateGate.AdmissionsSpendTime | src/runtime/admission.rs:279-286 | every admission uses up at least one nanosecond of the 64-bit domain, across any rate changes, so takes cannot succeed forever |
| RateGate.BurstNeverOlderThanInterval | src/runtime/admission.rs:248-260 | across any number of rate changes no attempt decides with a burst older than its interval |
| KnobHysteresis.NewKnobInRangeExactly | src/runtime/adaptive.rs:260-274 | a new knob is within [floor, hard] if and only if its startup value is at least 1 |
| KnobHysteresis.NewKnobStarts | src/runtime/adaptive.rs:260-274 | a knob starts at its hard bound, with the lesser of the default and the startup value as its floor |
| KnobHysteresis.BelowHardExactly | src/runtime/adaptive.rs:260-315 | a knob stays at or below its hard bound throughout a history if and only if its startup value is positive or no tick is critical |
| KnobHysteresis.QuantizedStepQuarter | src/runtime/adaptive.rs:231-233 | a step is the most quanta that fit a quarter of the startup value, and one quantum if none fits |
| KnobHysteresis.WatermarksAreExact | src/runtime/adaptive.rs:323-328 | for 32-bit ceilings the saturating comparisons are the exact 85% and 40% tests |
| KnobHysteresis.HistoryKeepsRange | src/runtime/adaptive.rs:299-368 | for every sequence of critical and sampled ticks the value stays within [floor, hard], and floor, hard and step never change |
| KnobHysteresis.CriticalClamps | src/runtime/adaptive.rs:297-315 | at every critical tick of every history the knob is at its floor with its counters reset |
| KnobHysteresis.NothingLatches | src/runtime/adaptive.rs:346-358 | a counter that is full after a tick is so only while the dwell runs: no move stays pending on a knob at a bound |
| KnobHysteresis.TimeInState | src/runtime/adaptive.rs:281-322 | the time in state is the number of samples since the last move; critical ticks do not count |
| KnobHysteresis.HistoryIsRemembered | src/runtime/adaptive.rs:319-345 | the counters are runs of high or low samples at an unchanged value; the change mark is a tick at which the value moved, and it has not moved since |
| KnobHysteresis.MovesAreSpaced | src/runtime/adaptive.rs:276-279 | a move that is not a critical clamp comes at least 6 ticks after every earlier move |
| KnobHysteresis.MovesAreEarned | src/runtime/adaptive.rs:319-368 | a scale-up (scale-down) is one step, clamped, and the last 3 (6) ticks were all samples at or above 85% (at or below 40%) of an unchanged value |
| KnobHysteresis.RaisesExactly | src/runtime/adaptive.rs:319-368 | a tick raises the knob if and only if it is below hard, the last 3 ticks were high samples of an unchanged value and the last 6 hold no other move |
| KnobHysteresis.LowersExactly | src/runtime/adaptive.rs:319-368 | a sample lowers the knob if and only if it is above its floor and the last 6 ticks were low samples of an unchanged value |
| KnobHysteresis.HighSamplesClimb | src/runtime/adaptive.rs:319-368 | under high samples only, the value after any number of ticks is given in closed form |
| KnobHysteresis.MovesToHardExactly | src/runtime/adaptive.rs:346-350 | the hard bound is reached after exactly ceil((hard - value) / step) moves |
| KnobHysteresis.RecoveryAfterClamp | src/runtime/adaptive.rs:276-368 | after a clamp moved at T and the last critical tick C, with high samples only, the knob first moves at max(T+6, C+3), then every 6 ticks, and is at hard exactly from the last needed move on |
| Admission.ResourceGovernor.constructor | src/runtime/admission.rs:130-143 | seven distinct pools, each kind on its own field, each with its ceiling at its hard bound and no permit held |
| Admission.DirectBarrier.constructor | src/runtime/admission.rs:327-335 | a fresh pool and a fresh gate with the configured bounds |
| AdaptiveController.KnobState.constructor | src/runtime/adaptive.rs:260-274 | the object starts as the specified new knob |
| AdaptiveController.KnobState.ClampToFloor | src/runtime/adaptive.rs:299-315 | the object steps as the specified clamp and reports a change exactly when it moved, for critical pressure |
| AdaptiveController.KnobState.Tick | src/runtime/adaptive.rs:319-368 | the object steps as the specified sample and reports a change exactly when it moved, for the watermark the sample was past |
| AdaptiveController.MoveKnobs | src/runtime/adaptive.rs:644-664 | the loop steps every knob once and lists exactly the moved ones, each once, in knob order, each with its old and new value, floor, bound and reason |
| AdaptiveController.Controller.constructor | src/runtime/adaptive.rs:570-615 | eight new knobs, in range, each equal to the live setting it drives |
| AdaptiveController.Controller.StartedAreBuilt | src/runtime/adaptive.rs:578-608 | knob by knob: its pool or rate, its default floor and its quantum (defaults from src/runtime/policy.rs:64-98) |
| AdaptiveController.Controller.SignalIsDemand | src/runtime/adaptive.rs:623-631 | each knob is judged by the permits of its own pool, and the dial rate by those of the direct pool |
| AdaptiveController.Controller.Apply | src/runtime/adaptive.rs:676-685 | the knob's own setting becomes the new value, unclamped, no other setting changes, and the gate's reservation is kept |
| AdaptiveController.Controller.Decide | src/runtime/adaptive.rs:644-664 | every knob takes its step, the moves are listed, and no live setting changes yet |
| AdaptiveController.Controller.ApplyAll | src/runtime/adaptive.rs:665-667 | after the loop every live setting equals its knob, and the gate's reservation is kept |
| AdaptiveController.Controller.Tick | src/runtime/adaptive.rs:637-673 | every tick steps each knob on critical pressure or on the permits of its own pool (the dial rate on those of the direct pool), keeps all knobs in range and, field by field, every pool ceiling and the dial rate equal to their knob, and returns the moves in knob order; the pre-auth idle pool and the gate's reservation are outside the frame |
| Bits.PrefixIsTopBits | src/assets/dat.rs:361-399 | two values share their first bits if and only if they agree on the top of their numeric value |
| PrefixTrie.CoversByPrefix | src/assets/dat.rs:380-399 | a linear scan over the blocks matches exactly when some prefix of the value's bits is an inserted path |
| PrefixTrie.NodeCount | src/assets/dat.rs:361-378 | a trie whose nodes are all prefixes of its blocks has exactly one node for each distinct prefix |
| PrefixTrie.Trie.constructor | src/assets/dat.rs:354-359 | an empty trie of the given width, with its root as only node |
| PrefixTrie.Trie.Grow | src/assets/dat.rs:365-373 | allocating a child keeps the arena a tree whose nodes are exactly the prefixes seen |
| PrefixTrie.Trie.Insert | src/assets/dat.rs:361-378 | a stored block is added to the blocks with at most `prefix` new nodes; a trie with no other nodes than its blocks need refuses a block if and only if the blocks then need more than 2^32 nodes, and a refusal leaves the blocks as they were |
| PrefixTrie.Trie.Contains | src/assets/dat.rs:380-399 | the walk answers exactly as a linear scan over all inserted blocks, so order and repeats never matter |
| Protobuf.VarintIs64Bits | src/assets/dat.rs:204-220 | whatever is accepted as a varint is below 2^64 |
| Protobuf.VarintFromEncoded | src/assets/dat.rs:204-220 | every 64-bit number, encoded anywhere in a message, reads back with the cursor just behind it |
| Protobuf.VarintExactly | src/assets/dat.rs:204-220 | a number is read if and only if up to ten bytes stand there, all but the last with the continuation bit and a tenth of at most 1, and it is their seven-bit groups, least significant first |
| Protobuf.VarintErrors | src/assets/dat.rs:204-220 | truncated if and only if the input ends inside a varint; invalid if and only if a tenth byte exceeds 1 |
| Protobuf.WireTypes | src/assets/dat.rs:154-190 | for every field key: wire types 0, 1, 2 and 5 read a varint, 8 ignored bytes, length-prefixed bytes and 4 ignored bytes, or fail past the end; the other four, and field number 0, are invalid |
| Protobuf.FieldFromEncoded | src/assets/dat.rs:154-190 | every encodable field reads back |
| Protobuf.MessageRoundTrip | src/assets/dat.rs:154-190 | reading a message of any encoded fields gives those fields |
| Protobuf.DecodeVarint | src/assets/dat.rs:204-220 | the loop, adding up seven bits a byte, computes the specified varint or error |
| Protobuf.ProtoReader.ReadVarint | src/assets/dat.rs:204-220 | the cursor ends behind the varint |
| Protobuf.ProtoReader.Skip | src/assets/dat.rs:222-231 | skips within the input or fails |
| Protobuf.ProtoReader.ReadValue | src/assets/dat.rs:163-188 | one value of each wire type, or its error |
| Protobuf.ProtoReader.Next | src/assets/dat.rs:154-190 | the next field, its error, or the end of the message |
| GeoIp.MaskValue | src/assets/dat.rs:439-453 | the shifted mask is 2^width - 2^(width - prefix), prefix 0 included |
| GeoIp.AndHighBits | src/assets/dat.rs:414-437 | masking rounds an address down to a multiple of the block size |
| GeoIp.BigEndianAt | src/assets/dat.rs:414-437 | byte i of an address is the i-th most significant byte of its number |
| GeoIp.MaskKeepsTop | src/assets/dat.rs:414-453 | a masked address covers exactly what the unmasked one does: host bits never matter |
| GeoIp.NetworkExactly | src/assets/dat.rs:414-437 | an address and a prefix make a network if and only if they are 4 bytes and at most 32 or 16 bytes and at most 128; it has that family and prefix and no bit set behind the prefix; anything else is an invalid CIDR |
| GeoIp.CidrRoundTrip | src/assets/dat.rs:126-138 | an encoded address and prefix parse if and only if they are 4 bytes and at most 32 or 16 bytes and at most 128, to the network of that family and prefix with the host bits cleared, and fail as an invalid CIDR otherwise |
| GeoIp.CidrExactly | src/assets/dat.rs:126-138 | every message: it parses if and only if its fields do and its last address and last prefix fit a family; the error is the wire error, or an invalid CIDR |
| GeoIp.LastBlobExactly | src/assets/dat.rs:131-135 | a repeated byte field counts with its last occurrence |
| GeoIp.LastVarintExactly | src/assets/dat.rs:128-135 | a repeated number counts with its last occurrence, and a missing one is 0 |
| GeoIp.ParseCidr | src/assets/dat.rs:126-138 | the field loop computes the specified network or error |
| GeoIp.ScanGeoip | src/assets/dat.rs:97-114 | the field loop computes the specified entry or error |
| GeoIp.GeoipRoundTrip | src/assets/dat.rs:97-114 | an encoded entry scans to its lower-cased code, its networks in order and its reverse flag |
| GeoIp.ScanExactly | src/assets/dat.rs:97-114 | every message: an entry needs well-formed fields, valid text in every code and a last code that is not empty; it then has that code lower-cased, all networks in order and the last reverse flag, and unknown fields do not matter |
| GeoIp.LowerFoldsCase | src/assets/dat.rs:104 | lower-casing leaves no capital, changes nothing else, and identifies exactly the texts that differ in ASCII case |
| GeoIp.CidrIsExact | src/assets/dat.rs:408-437 | a parsed network covers an address exactly when family and top bits of the encoded bytes agree |
| GeoIp.BlocksAreExact | src/assets/dat.rs:321-345 | the blocks of a family cover an address exactly when some listed network does |
| GeoIp.AddNetwork | src/assets/dat.rs:321-337 | one network more is compiled into the trie of its family, or the set stays as it was, which happens if and only if that family then needs more than 2^32 nodes |
| GeoIp.Compile | src/assets/dat.rs:321-337 | compiling succeeds if and only if every network parses and neither family needs more than 2^32 distinct prefixes; an error is the first malformed network's or that of an exhausted arena |
| GeoIp.SmallListsCompile | src/assets/dat.rs:321-337 | every well-formed list whose prefix lengths add up to at most 2^32 - 1 compiles |
| GeoIp.IpSet.Contains | src/assets/dat.rs:339-345 | matching equals a linear scan over the encoded networks, negated when reversed |
| RotatingLog.HistoryIsSuffix | src/logging/sink.rs:830-897 | over every run of writes the files, oldest first, hold a suffix of what there was plus everything accepted |
| RotatingLog.WriteMovesWholeFiles | src/logging/sink.rs:830-866 | after a write each rotated file is an earlier file, whole, and the active file is the old one or an empty one plus the event: nothing is split |
| RotatingLog.BoundsHold | src/logging/sink.rs:806-897 | over every run from an empty log: at most maxFiles files, each at most maxBytes, in total at most maxTotal whenever maxTotal >= maxBytes |
| RotatingLog.WriteFitsBudget | src/logging/sink.rs:875-897 | one write brings the total within the budget if one full file fits it |
| RotatingLog.PrunedExactly | src/logging/sink.rs:875-897 | pruning keeps a rotation if and only if it and everything newer fit the budget |
| RotatingLog.PruneLosesNothing | src/logging/sink.rs:875-897 | pruning loses no event if and only if every rotation beyond the budget is empty |
| RotatingLog.WriteLosesNothingExactly | src/logging/sink.rs:830-897 | a write loses no event if and only if a rotation it causes pushes no event out of the last index and every rotation that exceeds the budget together with all newer files and the event is empty |
| RotatingLog.WrittenExactly | src/logging/sink.rs:830-897 | after a write a rotated file is there if and only if the file it comes from was, its index is in range, and it fits the budget together with everything newer and the event; it is that file, whole |
| RotatingLog.OpenKeepsSuffix | src/logging/sink.rs:806-828 | opening keeps the newest part of what it finds, within the index bounds |
| RotatingLog.OpenedExactly | src/logging/sink.rs:806-828 | an active file below its limit stays active and a full one becomes the first rotation; a rotated file is there if and only if its index is in range and it fits the budget together with everything newer, and it is a file found, whole |
| RotatingLog.RemoveOutOfRange | src/logging/sink.rs:868-873 | the loop deletes exactly the managed rotations at or beyond maxFiles |
| RotatingLog.ShiftFiles | src/logging/sink.rs:850-862 | the rename loop moves every file up by one and drops the last, losing no other |
| RotatingLog.RotatingFile.constructor | src/logging/sink.rs:806-828 | opening leaves on disk exactly the specified files and the exact byte count, and rotations beyond the managed index 64 as they were |
| RotatingLog.RotatingFile.Measure | src/logging/sink.rs:876-888 | the saturating sum is the exact total, and the list names the rotations present with their sizes |
| RotatingLog.RotatingFile.PruneTotal | src/logging/sink.rs:875-897 | the delete loop, oldest first, leaves exactly the specified files |
| RotatingLog.RotatingFile.Rotate | src/logging/sink.rs:846-866 | renames, a fresh active file and a prune leave exactly the specified files |
| RotatingLog.RotatingFile.Write | src/logging/sink.rs:830-844 | an event is refused exactly when longer than a file may be; otherwise the disk holds exactly the specified files |
| AddressFamilies.InitialPrimaryUsable | src/network.rs:621-641 | the initial primary is allowed, and routed whenever some allowed family is |
| AddressFamilies.InitialPrimaryExactly | src/network.rs:621-641 | the process starts with the family the policy names, or else the system's, if and only if the policy allows no other, it has a route, or the other has none |
| FamilyHealth.PrimaryAlwaysAllowed | src/network.rs:250-437 | over every history the primary is allowed by the policy, and every switch lands on an allowed family with a route at that step |
| FamilyHealth.CountersAreRuns | src/network.rs:317-437 | the 8-bit counters equal, up to 255, the strong failures since the last success or reached endpoint, the uncleared losses as primary, and the unconfirmed recoveries |
| FamilyHealth.TimesAreRuns | src/network.rs:250-481 | over every history the penalty is the latest end of those since the family last succeeded or was reached, and the probe time is what the last return of its route, unconfirmed or confirmed recovery, penalty or claimed probe made it |
| FamilyHealth.MemoryStep | src/network.rs:325-345 | a success sets the time of the last one and moves the latency average; no other operation touches either |
| FamilyHealth.ErrnosExactly | src/network.rs:603-612 | errors 97, 93, 101, 113, 99 and 19 speak against a family, 111 and 104 show it works, all others say nothing |
| FamilyHealth.PreferredExactly | src/network.rs:368-374 | recovery leads to the family the policy names, or to the one the process began with |
| FamilyHealth.SwitchesExactlyWhenWarranted | src/network.rs:250-437 | the primary changes at an operation if and only if the history warrants it: its route was lost, the preferred family succeeded twice, two strong failures, or three weak losses |
| FamilyHealth.PenaltyStands | src/network.rs:400-409 | a penalty never gets shorter until its family succeeds or is reached |
| FamilyHealth.NoProbeDuringPenalty | src/network.rs:454-481 | no recovery probe of a family is claimed before its standing penalty has run out |
| FamilyHealth.FirstFamilyHealthy | src/network.rs:579-600 | if some family is routed and not penalized, a plan starts from such a family |
| FamilyHealth.FirstFamilyExactly | src/network.rs:579-600 | a plan starts from the other family than the primary if and only if a probe of it is due, or the primary is penalized and it is not, or it has a route and the primary has none |
| FamilyHealth.HealthyPrimaryFirst | src/network.rs:591-600 | a routed primary without a penalty comes first unless a probe is due |
| FamilyHealth.AverageMovesAnEighth | src/network.rs:325-341 | a remembered latency average moves an eighth of the way to the sample, cut off at 64 bits; it never exceeds both, and falls below both exactly when the sum is cut off below them |
| FamilyHealth.AverageStartsAfresh | src/network.rs:325-341 | with no success in memory the average is the sample, at least 1 and cut off at 64 bits |
| FamilyHealth.NetworkEnvironment.constructor | src/network.rs:202-232 | the object starts from the startup snapshot with fresh health |
| FamilyHealth.NetworkEnvironment.UpdateRoutes | src/network.rs:250-274 | the object steps as specified for new routes, including the re-armed probe |
| FamilyHealth.NetworkEnvironment.RecordSuccess | src/network.rs:317-366 | the object steps as specified for a success |
| FamilyHealth.NetworkEnvironment.RecordConnectError | src/network.rs:378-398 | the object steps as specified for each class of error |
| FamilyHealth.NetworkEnvironment.PenalizeAndFailOver | src/network.rs:400-419 | penalty and probe time are raised, never lowered, and the primary moves to a usable alternate |
| FamilyHealth.NetworkEnvironment.RecordAlternateSuccess | src/network.rs:423-437 | the object steps as specified for a weak loss |
| FamilyHealth.NetworkEnvironment.ClaimRecoveryProbe | src/network.rs:454-481 | a claim succeeds exactly when the probe is due, and moves only the due time |
| FamilyHealth.NetworkEnvironment.PreferredFamilyAt | src/network.rs:579-600 | the object returns the specified first family, and only a claimed probe moves the due time |
| ProbeClaims.StepKeepsConsistent | src/network.rs:454-481 | every load, exchange, store and raise keeps claims of one epoch spaced and behind the due time |
| ProbeClaims.SoloClaim | src/network.rs:467-481 | a planner alone claims if and only if the due time is set and has come, and moves it to now plus the interval |
| ProbeClaims.HistoryInCell | src/network.rs:250-481 | every history of the family health is a run of the raced cell, with the same due time and as many claims |
| ProbeClaims.ClaimsAreSpaced | src/network.rs:454-481 | in every interleaving, two claims with no re-arming store between them are at least the retry interval apart |
| ProbeClaims.OneWinnerPerDueTime | src/network.rs:467-480 | planners that read the same due time have one winner until a store, unless the winning claim leaves the due time in place |
| ProbeClaims.RepeatableExactly | src/network.rs:471-480 | that exception is exactly a claim at its own due time with no interval or a clock at its maximum |
| ProbeClaims.RepeatedClaimHappens | src/network.rs:471-480 | every such claim is won twice by some run |
| DialPlanner.FirstsMembers | src/network.rs:654-674 | a family's distinct addresses are its allowed addresses, each once |
| DialPlanner.FirstsOrdered | src/network.rs:654-674 | they are in order of first appearance |
| DialPlanner.PlanIsExact | src/network.rs:535-577 | a plan holds every allowed address exactly once, nothing else, and starts with the chosen family if it has an address |
| DialPlanner.PlanAlternates | src/network.rs:550-576 | neighbours alternate in family as long as both families last |
| DialPlanner.NextUniqueFamily | src/network.rs:654-674 | the scan stops at the first allowed address of the family not yet planned, or at the end if there is none |
| DialPlanner.Arrange | src/network.rs:545-577 | the loop ends, and every address has the position the alternation gives it |
| DialPlanner.ConnectionPlanner.PlanAt | src/network.rs:535-577 | the plan is exact; only a choice between two usable families asks, and steps, the shared health |
| Socks5.DecodeStable | src/protocol/socks5.rs:353-387 | for CONNECT, UDP ASSOCIATE and datagrams, a success or definite error stays the same whatever follows |
| Socks5.IncompleteIsShort | src/protocol/socks5.rs:683-696 | incomplete input is shorter than the longest header of 262 bytes |
| Socks5.PrefixIsIncomplete | src/protocol/socks5.rs:353-387 | every proper prefix of an accepted header is incomplete |
| Socks5.ShortfallIsExact | src/protocol/socks5.rs:683-696 | an incomplete input reports fewer bytes than its next field needs, and while too few more arrive the report only counts them |
| Socks5.WireLayout | src/protocol/socks5.rs:394-427 | headers byte for byte: 5, command 1 or 3, 0 (or three zeros), address type 1, 3 or 4, address, port high byte first |
| Socks5.DomainNamesExactly | src/protocol/socks5.rs:24-33 | a domain name is 1 to 255 letters, digits, hyphens, full stops and underscores |
| Socks5.BadRequests | src/protocol/socks5.rs:353-376 | a request is refused for its first bad byte among version, command, reserved byte and address type |
| Socks5.BadDatagrams | src/protocol/socks5.rs:515-535 | a datagram is refused for a fragment number or an unknown address type |
| Socks5.BadDestinations | src/protocol/socks5.rs:370-380 | an empty domain, a domain that is no name, and port 0 except in an association are refused, whatever follows |
| Socks5.RoundTrip | src/protocol/socks5.rs:353-427 | an encoded destination followed by any payload decodes to that destination, the exact header length and that payload (sections 4, 5 and 7 of RFC 1928) |
| Socks5.AcceptedIsEncoded | src/protocol/socks5.rs:353-427 | an accepted header is the encoding of what was read from it, up to a datagram's ignored reserved bytes |
| Socks5.AcceptedExactly | src/protocol/socks5.rs:353-427 | input is accepted as a destination if and only if it begins with the encoding of one the message can carry, up to a datagram's reserved bytes |
| Socks5.EncodeInjective | src/protocol/socks5.rs:394-427 | different destinations have different headers |
| Socks5.EncodedLength | src/protocol/socks5.rs:612-618 | the computed length is the encoded length, at most 262 |
| Socks5.OfferStable | src/protocol/socks5.rs:301-324 | a decided method offer stays decided whatever follows |
| Socks5.IncompleteOfferIsShort | src/protocol/socks5.rs:301-324 | an incomplete offer is shorter than 257 bytes |
| Socks5.OfferAccepted | src/protocol/socks5.rs:301-324 | a complete offer of 1 to 255 methods is accepted exactly when it lists no-authentication (section 3 of RFC 1928) |
| Socks5.BadOffers | src/protocol/socks5.rs:301-316 | an offer is refused for its version, then for an empty list, and a short list is reported with its shortfall |
| Socks5.Cursor.Take | src/protocol/socks5.rs:683-696 | the slice and a moved cursor, or the missing-bytes error and an unmoved one |
| Socks5.Cursor.ReadDomain | src/protocol/socks5.rs:620-632 | reads the specified domain or error |
| Socks5.Cursor.ReadAddress | src/protocol/socks5.rs:370-376 | reads the specified address or error |
| Socks5.Cursor.ReadDestination | src/protocol/socks5.rs:370-377 | reads the specified address and port or error |
| Socks5.DecodeRequest | src/protocol/socks5.rs:353-468 | CONNECT and UDP ASSOCIATE decode to the specified result with the exact remaining payload |
| Socks5.DecodeDatagram | src/protocol/socks5.rs:515-545 | datagrams decode to the specified result with the exact payload |
| Socks5.DecodeMethodOffer | src/protocol/socks5.rs:301-324 | offers decode to the specified result |
| Socks5.EncodeRequest | src/protocol/socks5.rs:394-509 | exactly the specified bytes are written in front of untouched ones; on any error the buffer is unchanged and the error is the first that applies |
| Socks5.EncodeDatagram | src/protocol/socks5.rs:548-580 | the buffer becomes header plus payload, or is left alone with the reason |
| Socks5Inbound.HandshakeUnderstood | src/client/socks5_inbound.rs:134-210 | an acceptable offer and an encoded request, whatever follows, yield that request |
| Socks5Inbound.EarlyEnd | src/client/socks5_inbound.rs:134-202 | a stream that ends within the offer fails as closed, one that ends within the command as truncated |
| Socks5Inbound.CommandStable | src/client/socks5_inbound.rs:176-193 | a decided command stays decided whatever follows |
| Socks5Inbound.UndecidedIsShort | src/client/socks5_inbound.rs:176-208 | undecided bytes number fewer than 262, so the 1024-byte limit is never met |
| Socks5Inbound.VersionReportedExactly | src/client/socks5_inbound.rs:176-193 | the command byte is looked at before the version byte: the outcome differs from checking the version first if and only if a wrong version stands alone or before an unknown command |
| Socks5Inbound.ReadCommand | src/client/socks5_inbound.rs:170-210 | for every chunking the result is that of the bytes alone, and the size limit never fires |
| Socks5Inbound.NegotiateAndReadRequest | src/client/socks5_inbound.rs:134-168 | for every chunking of the stream the outcome is a function of its bytes, and the method reply is sent exactly when the offer is acceptable |
| RawRelay.StepKeepsConsistent | fuzz/fuzz_targets/session_semantics.rs:341-490 | for every rank-monotone table each event keeps the commitment invariant |
| RawRelay.NeverSplits | fuzz/fuzz_targets/session_semantics.rs:341-490 | over every event sequence the directions never commit differently, and each gets at most one grant and four transitions |
| RawRelay.BoundsAreMet | fuzz/fuzz_targets/session_semantics.rs:341-391 | both bounds are met: a direction that relays alone goes through four transitions and one grant |
| RawRelay.BothJoin | fuzz/fuzz_targets/session_semantics.rs:435-490 | two directions at their boundaries, planned in either order, both join the pair with one grant each |
| RawRelay.PairExactly | fuzz/fuzz_targets/session_semantics.rs:75-80 | a direction joins the pair if and only if its peer is at its own boundary or has joined |
| RawRelay.BoundedWithoutDiscipline | fuzz/fuzz_targets/session_semantics.rs:341-391 | grants and transitions are bounded even without the settlement rule |
| RawRelay.TerminalStays | fuzz/fuzz_targets/session_semantics.rs:347-357 | a closed or failed direction never changes again |
| RawRelay.DecisionStays | fuzz/fuzz_targets/session_semantics.rs:470-479 | a decision is never revised |
| RawRelay.SplitsExactlyWhenSettledEarly | fuzz/fuzz_targets/session_semantics.rs:363-381 | without the settlement rule, a granted plan splits the pair if and only if the peer committed to the pair and was already settled |
| RawRelay.EarlySettlementSplits | fuzz/fuzz_targets/session_semantics.rs:363-381 | the engine's own table has such a run |
| RawRelay.EngineTable | crates/rr-session/src/vision.rs:71-93 | the engine's table is rank-monotone, only terminal states are final, and a relay is granted from the raw boundary alone |
| RawRelay.EngineEdges | crates/rr-session/src/vision.rs:71-93 | the table has five forward edges, and one from every state that is not terminal to each that is |
| RawRelay.PairRendezvous.Step | crates/rr-session/src/rendezvous.rs:68-75 | a scheduling point is spent only while one is left and the peer is absent; committing is final |
| RawRelay.Rendezvous | fuzz/fuzz_targets/session_semantics.rs:400-433 | whatever is observed, the loop spends one scheduling point per look before the peer is seen, never more than two |
| RawRelay.SessionModel.AdvanceTo | fuzz/fuzz_targets/session_semantics.rs:341-391 | the object steps as specified and stays consistent |
| RawRelay.SessionModel.PlanRawRelay | fuzz/fuzz_targets/session_semantics.rs:400-490 | a grant is issued exactly when the state moves, is Pair exactly when the peer is at its boundary or has joined, and the peer has no other decision |
| LineSelection.AlternateDiffers | src/client/selection.rs:184-192 | in a group of two or more the alternate is never the primary |
| LineSelection.PicksAreNearest | src/client/selection.rs:173-192 | the primary is the nearest healthy LINE from the sticky one on, the alternate the nearest healthy one after the primary |
| LineSelection.PrimaryHealthy | src/client/selection.rs:173-182 | the primary is healthy if any LINE is, and a healthy sticky LINE is the primary |
| LineSelection.AlternateHealthy | src/client/selection.rs:184-192 | the alternate is healthy if any LINE other than the primary is |
| LineSelection.AfterExactly | src/client/selection.rs:142-203 | every outcome and every LINE: the winner has no fault, a primary or raced alternate that did not win has one more, up to 2, every other as many as before, and only a winner becomes sticky |
| LineSelection.MissUses | src/client/selection.rs:154-169 | a session that does not try the good LINE uses up one fault of each healthy LINE tried and changes nothing else |
| LineSelection.Converges | src/client/selection.rs:121-203 | with one untripped good LINE, at most n sessions pass before it is sticky |
| LineSelection.StaysSettled | src/client/selection.rs:121-203 | from then on it is the primary of every session and wins it |
| LineSelection.TrippedConvergesExactly | src/client/selection.rs:173-192 | in a fully tripped group the good LINE is ever reached if and only if it is the sticky LINE or its successor; otherwise nothing ever changes |
| LineSelection.ReachedExactly | src/client/selection.rs:121-203 | from every state of a group the good LINE becomes sticky if and only if it is healthy, sticky, next to the sticky LINE, or next to the LINE left over when the others pair off their remaining faults in order; a reachable LINE takes at most n + 1 sessions and an unreachable one is never tried |
| LineSelection.MissKeepsLeftover | src/client/selection.rs:154-203 | a session that faults two healthy LINEs changes nothing of which LINE is left over |
| LineSelection.TriedIsReachable | src/client/selection.rs:173-192 | only a reachable LINE is ever tried |
| LineSelection.MissKeepsReachable | src/client/selection.rs:121-203 | a session that misses a LINE leaves it as reachable, or unreachable, as it was |
| LineSelection.TrippedForGood | src/client/selection.rs:121-203 | an ordinary history of a group of five after which LINE 1 is unreachable for good while LINE 0 is reachable |
| LineSelection.NewGroup | src/client/selection.rs:67-87 | a group of 1 to 8 LINEs has no faults and starts at the first LINE; any other size is refused with its own error |
| LineSelection.LineGroup.PickPrimary | src/client/selection.rs:173-182 | the loop picks the specified primary |
| LineSelection.LineGroup.PickAlternate | src/client/selection.rs:184-192 | the loop picks the specified alternate |
| LineSelection.LineGroup.Authenticate | src/client/selection.rs:121-171 | the group steps as specified: the LINE returned is the winner and alone becomes sticky, and every LINE's fault count follows from its role |

## Left out

- Concurrent rate changes and concurrent LINE sessions.
- Weak memory orderings: sequential consistency is assumed throughout.
- Family health under interleaving: only the probe claim is modelled step by step; the other operations are atomic, and hardware-level races between them are not covered.
- Admission under pressure and `DirectBarrier::try_acquire` (src/runtime/admission.rs:151-165, 347-362): short compositions of the semaphore, the gate and one comparison.
- AdaptiveController.Controller.constructor: startup values of 0 are excluded, because such a knob starts outside its range and a critical tick lifts it above its pool's bound (`NewKnobInRangeExactly`, `BelowHardExactly`).
- Status snapshots, pressure reports and wall-clock fields of the adaptive controller: reporting only.
- RotatingLog.RotatingFile.constructor: files above 2^57 bytes are excluded, so that sums of sizes do not saturate.
- I/O errors of the rotating log: a file system that fails half-way is not modelled.
- GeoSite lists, label checks, regular expressions and Aho-Corasick matching in src/assets/dat.rs: library behaviour, or one branch each. UTF-8 validity of a country code is a parameter.
- `select_client_transport` and the race engine behind it: the end of a race is an input to `Authenticate`.
- SOCKS5 command replies and the UDP relay loop: fixed layouts and I/O. Payload that arrives with a CONNECT request is not claimed to survive the reader, which keeps the destination only.
- Authenticated transfers in fuzz/fuzz_targets/session_semantics.rs:115-280: an attempt chain of length two.
- Vision, TLS, XUDP, REALITY and VLESS codecs, cryptography, configuration checks, the CLI and the runtime plumbing.
