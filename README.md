# Ping monitor core, modelled in Dafny

The system is a small ping monitor for microcontrollers. A `PingMon` holds a
fixed table of up to six `PingTarget`s. Each target keeps a four-slot circular
history of probe outcomes: a round-trip time and a TTL, a timeout (`-1`), or
"unset" (`-32768`). From that history it derives loss, mean RTT and mean TTL.
It probes in bursts of three, one second apart, then rests for two minutes.
`PingMon::update` walks the table round-robin from a saved cursor. It stops
early once a 500 ms budget is spent and saves where the next pass resumes.
Two string checksums come with it: the bitwise CRC-8 of `crc8.c`
(CRC-8/SMBUS: polynomial 0x07, init 0x00, xorout 0x00) and the 32-bit
FNV-1a hash of `fnv1a.h`.

The model has one module per source concern:

- `cstrings.dfy` (`CStrings`): a `const char *` argument is a byte sequence
  that contains a NUL; the string is what precedes the first NUL.
- `crc8.dfy` (`Crc8`): the CRC as a recursive fold over bytes on `bv8`. Both
  routines are modelled as loops proved to compute it: the compiled `uint8_t`
  one and the disabled `uint16_t` one.
- `fnv1a.dfy` (`Fnv1a`): the hash on a `u32` register with explicit modulo
  2^32 arithmetic and a bitwise xor on naturals. Both loop forms are modelled:
  the multiply and the disabled shift-add. Whether `char` is signed is a
  parameter, because a signed `char` is sign-extended before the xor.
- `ping_stats.dfy` (`PingStatistics`): getStats as a pure function, the
  tally of the slots followed by the summary, plus the lemmas about it.
- `ping_target.dfy` (`PingTargets`): the history as a value with the window
  lemmas, the burst policy, and the `PingTarget` class over two arrays. The
  class's methods are proved against the value-level functions `Record`,
  `AfterReset`, `AfterUpdate` and `Stats`. The static `_onPingResponseTarget`
  pointer is the `PendingResponse` object passed to `Update`.
- `ping_mon.dfy` (`PingMonitor`): the `PingMon` class and its scheduler pass,
  specified per target by `AfterPass` and `Processed`.
- `wrappers.dfy` (`Wrappers`): `Option`.
- `unsigned32.dfy` (`Unsigned32`): the modulus 2^32 of `unsigned`,
  `uint32_t` and `unsigned long` on the 32-bit targets, used by the hash,
  the clock difference and the RTT accumulator.

The clock and the ICMP transport are parameters. `PingTarget.Update` takes
the reading at which the target decides (`now`), the reading stamped after
the probe (`finish`), the response `Pinger` delivered, or `None` when the
probe could not be issued, and the host name an installed resolver returned
(`resolved`). `PingMon.Update` takes the pass's start reading `t0` and one
`Visit` per iteration of its loop. A `Visit` holds the three readings of that
iteration, the response and the resolved name. The difference of two
clock readings is taken modulo 2^32, as the unsigned subtraction of
`millis()` values does. For readings less than 2^32 ms apart it is the plain
difference (`ElapsedMs`).

Notes on the code:

- The TODO at PingMon.h:10-11 plans a publish step; the code has none, and
  neither does the model.
- `PingMon::update` reduces modulo `_nTargets` even when the table is empty,
  so it is modelled with the precondition `nTargets > 0`.
- `PingTarget::update` returns `bool` (the definition, not the header's
  `void`), and `PingMon::update` ignores that result.
- An unissued probe leaves `_onPingResponseTarget` set. The next due probe
  of any target then reports the programming error
  (`StaleRegistrationAfterUnissuedProbe`).

## Model

| member | source | states |
|---|---|---|
| CStrings.CString | fnv1a.h:35 | the string of a NUL-terminated buffer: a prefix of it with no NUL, followed by the NUL when shorter than the buffer |
| CStrings.CStringOfTerminated | crc8.c:103 | a string followed by a NUL reads back as itself, whatever follows the NUL in memory |
| CStrings.CStringAt | crc8.c:103 | the first NUL at offset i ends the string: the string is the first i bytes |
| Crc8.BitStep | crc8.c:106-110 | definition: one bit of long division, the register shifted left by one and xored with 0x07 when its top bit was set |
| Crc8.Shifts | crc8.c:105-111 | definition: the inner loop, k bit steps applied in turn |
| Crc8.ByteStep | crc8.c:104-111 | definition: the byte xored into the register, then eight bit steps |
| Crc8.Fold | crc8.c:103-113 | definition: the byte steps over the message in order, from a given register |
| Crc8.Crc | crc8.c:89-91 | the empty message has CRC 0 (init and final xor are both 0x00) |
| Crc8.FoldAppend | crc8.c:103-113 | absorbing a ++ b is absorbing a and then continuing with b |
| Crc8.CrcAppend | crc8.c:103-113 | the CRC of a ++ b is the fold over b started from the CRC of a |
| Crc8.Residue | crc8.c:26-28 | residue 0x00: a message followed by its own CRC byte has CRC 0 |
| Crc8.CheckValue | crc8.c:26-28 | check value: the CRC of ASCII "123456789" is 0xF4 |
| Crc8.AbsorbByte | crc8.c:104-111 | xoring a byte in and running the eight-step bit loop (shift, then xor 0x07 when the top bit fell out) is one byte of long division |
| Crc8.Compute | crc8.c:100-115 | the compiled routine returns the CRC of the bytes before the first NUL |
| Crc8.High | crc8.c:124 | definition: an 8-bit value placed in the high byte of the 16-bit register, as `(uint8_t)*p << 8` places each byte |
| Crc8.WideBitStep | crc8.c:126-129 | definition: one step of the 16-bit loop, xor POLYNOMIAL << 7 when bit 15 is set, then shift left by one |
| Crc8.WideBitStepIsBitStep | crc8.c:125-130 | one step of the 16-bit register (xor POLYNOMIAL << 7 when bit 15 is set, then shift) is the 8-bit step on its high byte, with the low byte kept clear |
| Crc8.HighXor | crc8.c:124 | xoring the byte shifted left by 8 xors it into the high byte |
| Crc8.HighByte | crc8.c:133 | the result `(uint8_t)(crc >> 8)` is the 8-bit register |
| Crc8.AbsorbByteWide | crc8.c:124-130 | one byte of the 16-bit routine leaves the 8-bit routine's register in the high byte |
| Crc8.ComputeWide | crc8.c:120-134 | the disabled uint16_t routine returns the same CRC as the compiled one |
| Fnv1a.Xor | fnv1a.h:36 | definition: the bitwise xor of two 32-bit values |
| Fnv1a.Mul | fnv1a.h:38 | definition: the product of two 32-bit values modulo 2^32 |
| Fnv1a.Add | fnv1a.h:40-42 | definition: the sum of two 32-bit values modulo 2^32 |
| Fnv1a.Shl | fnv1a.h:41-42 | definition: a shift left by k < 32 bits, the value times 2^k modulo 2^32 |
| Fnv1a.XorNatBound | fnv1a.h:36 | the xor of two values below 2^k stays below 2^k, so `hash ^ ch` fits in 32 bits |
| Fnv1a.CharValue | fnv1a.h:34 | the value of a `char` holding a byte is that byte modulo 256, in [-128, 256) |
| Fnv1a.Widen | fnv1a.h:36 | `ch` converted for the xor: the `char` value modulo 2^32, which is the byte itself when unsigned or below 0x80 and 0xFFFFFF00 + byte when a signed `char` is sign-extended |
| Fnv1a.Step | fnv1a.h:36-38 | definition: one loop iteration, the widened `char` xored into the register, then a multiply by 16777619 modulo 2^32 |
| Fnv1a.Fold | fnv1a.h:35-44 | definition: the steps over the bytes in order, from a given register |
| Fnv1a.Hash | fnv1a.h:33 | the empty string hashes to the offset basis 2166136261 |
| Fnv1a.UnsignedCharIsFnv1a | fnv1a.h:27-38 | with an unsigned `char` the loop is FNV-1a: per octet xor into the low octet, then multiply by 16777619 modulo 2^32 |
| Fnv1a.SevenBitIsFnv1a | fnv1a.h:34-38 | on 7-bit input the loop is FNV-1a whatever the signedness of `char` |
| Fnv1a.XorNatInjective | fnv1a.h:36 | xoring with a fixed register is injective |
| Fnv1a.MulPrimeInjective | fnv1a.h:38 | multiplying by the prime modulo 2^32 is injective (the prime's inverse is 899433627) |
| Fnv1a.SignExtensionDiverges | fnv1a.h:34-36 | with a signed `char`, every byte of 0x80 or more gives a different step than FNV-1a does, from every register |
| Fnv1a.FoldAppend | fnv1a.h:35-44 | hashing a ++ b is hashing a and then continuing with b |
| Fnv1a.HashAppend | fnv1a.h:35-44 | the hash of a ++ b continues from the hash of a |
| Fnv1a.AddShl | fnv1a.h:40-42 | adding `h << k` to a register holding h * c gives h * (c + 2^k) modulo 2^32 |
| Fnv1a.ShiftSum | fnv1a.h:41-42 | the five shifted copies, added left to right, sum to h * 16777618 modulo 2^32 |
| Fnv1a.ShiftAddIsMultiply | fnv1a.h:38-42 | `hash + ((hash << 1) + (hash << 4) + (hash << 7) + (hash << 8) + (hash << 24))` equals `hash * 16777619` modulo 2^32 |
| Fnv1a.ShiftAddMultiply | fnv1a.h:40-42 | the `#else` statement multiplies the register by the prime |
| Fnv1a.Compute | fnv1a.h:31-46 | the multiply form returns the hash of the bytes before the first NUL |
| Fnv1a.ComputeShiftAdd | fnv1a.h:31-46 | the shift-add form returns the same hash |
| PingStatistics.Count | PingMon.cpp:26-33 | definition: one loop iteration; an RTT >= 0 counts as sent and adds its RTT and TTL to the sums, RTT -1 counts as sent and lost, any other value is skipped |
| PingStatistics.TallyOf | PingMon.cpp:25-34 | the loop's counters: lost <= sent <= number of slots, and the TTL sum is at most 255 per answered slot |
| PingStatistics.TallySnoc | PingMon.cpp:25-34 | each further slot is one iteration of the loop body |
| PingStatistics.TallyOfFour | PingMon.cpp:25 | the tally of the four-slot history is four iterations |
| PingStatistics.TallyCounts | PingMon.cpp:26-33 | sent is the number of slots holding an RTT (>= 0) or a timeout (-1), lost the number holding a timeout; unset and other negative values do not count |
| PingStatistics.RttSumBounded | PingMon.cpp:26-28 | the RTT sum is at most the bound times the number of answered slots |
| PingStatistics.CountKeepsBound | PingMon.cpp:26-33 | one iteration keeps lost <= sent and the RTT sum within the bound |
| PingStatistics.DivBound | PingMon.cpp:38 | a quotient of a sum bounded per element is within the element bound, so the mean TTL fits the `unsigned char` field |
| PingStatistics.Summarize | PingMon.cpp:35-43 | definition: when sent > lost, loss is lost * 100 / sent and the means are the accumulators divided by sent - lost, the RTT accumulator taken modulo 2^32; otherwise loss 100 and the accumulators undivided; RTT 999 when lost == sent |
| PingStatistics.Stats | PingMon.cpp:18-44 | definition: getStats, the summary of the tally of the slots in order |
| PingStatistics.LossInRange | PingMon.cpp:35-36 | loss is a fraction with positive denominator in [0, 100] |
| PingStatistics.TotalsSnoc | PingMon.cpp:26-29 | one more slot adds its RTT and TTL to the answered sums when it holds an RTT, and nothing otherwise |
| PingStatistics.TallySums | PingMon.cpp:25-34 | the loop's RTT and TTL accumulators are the sums, over the slots holding an RTT (>= 0), of their RTTs and of their TTLs |
| PingStatistics.StatsWhenAnswered | PingMon.cpp:35-39 | when sent > lost: loss is 100 * lost / sent; mean RTT is the sum of the answered RTTs (modulo 2^32) divided by the answered count; mean TTL is the sum of the answered TTLs divided by it, truncated |
| PingStatistics.StatsWhenAllLost | PingMon.cpp:40-42 | when lost == sent, including an empty history: loss 100, RTT 999, TTL 0 |
| PingStatistics.MeanRttAtMostMax | PingMon.cpp:37 | when sent > lost, the mean RTT is at most any bound on the answered RTTs, hence at most their maximum |
| PingStatistics.ExampleOneTimeout | PingMon.cpp:18-44 | RTTs 10, timeout, 20, 30 with TTLs 64, 60, 50 report 25 % loss, 20 ms and TTL 58 |
| PingTargets.ClampTtl | PingMon.h:102-103 | definition: the TTL itself when in [0, 255), else 255 |
| PingTargets.Record | PingMon.h:100-105 | writing a slot keeps the buffer well formed: four slots and a cursor in [0, 4) |
| PingTargets.RecordAll | PingMon.h:100-105 | records applied in order keep the buffer well formed |
| PingTargets.RecordSlot | PingMon.h:101-103 | a record writes the slot under the cursor (TTL clamped) and keeps every other slot |
| PingTargets.CursorStep | PingMon.h:104 | advancing a cursor holding k mod 4 gives (k + 1) mod 4 |
| PingTargets.WindowHoldsLastFour | PingMon.h:100-105 | after k records since reset the cursor is k mod 4, slot i mod 4 holds record i for each of the last four records, and slots never written are still unset |
| PingTargets.NextOverwritesOldest | PingMon.h:104 | once four records exist, the cursor points at the oldest of the last four, which the next record overwrites |
| PingTargets.CursorLap | PingMon.h:104 | four records bring the cursor back to the same slot |
| PingTargets.ElapsedMs | PingMon.cpp:48 | the unsigned difference of two clock readings is below 2^32 and is the plain difference when the readings are less than 2^32 apart |
| PingTargets.Due | PingMon.cpp:49-57 | definition: probe when more than 120 s passed, when nothing was sent yet, or when the counter is not a multiple of 3 and at least 1 s passed |
| PingTargets.Acts | PingMon.cpp:48-57 | definition: `Due` of the counter and of the whole seconds `(now - _lastResponseMs) / 1000`, the difference taken modulo 2^32 |
| PingTargets.AfterReset | PingMon.h:67-84 | after reset: empty history, zero timestamp and counter, the new name (None for a null `name`); a host string replaces the host and drops the resolver; a resolver is installed and the stored host kept |
| PingTargets.ResetTargetReportsAllGone | PingMon.cpp:40-42 | a freshly reset target reports loss 100, RTT 999, TTL 0 |
| PingTargets.AfterUpdate | PingMon.cpp:46-87 | an update keeps the history well formed (what it stores as the host name when a resolver is installed is stated by `ProbeUsesResolvedHost`) |
| PingTargets.ProbeUsesResolvedHost | PingMon.h:92-98 | after a reset with a host name, a probe keeps that name; after a reset with a resolver, the stored host is what the resolver returned |
| PingTargets.BurstOfThree | PingMon.cpp:48-57 | a reset target probes at once and twice more a second apart, then is idle until more than 120 s have passed, and an idle update changes nothing |
| PingTargets.PendingResponse.constructor | PingMon.cpp:14 | no probe is outstanding at start |
| PingTargets.PingTarget.constructor | PingMon.h:120 | a table entry of a PingMon with static storage, before any reset: null name, empty host, every array element and counter zero |
| PingTargets.PingTarget.Init | PingMon.h:56-64 | every slot unset (RTT -32768, TTL 255), cursor 0, timestamp and counter 0 |
| PingTargets.PingTarget.Reset | PingMon.h:67-84 | the new state is `AfterReset` of the old one, for each of the three overloads and for a null name too |
| PingTargets.PingTarget.GetId | PingMon.h:86-91 | the name, or "<INVALID>" when it is null: a target never reset, or reset with a null name |
| PingTargets.PingTarget.AddResponse | PingMon.h:100-105 | only the slot under the cursor changes; its TTL is the input when in [0, 255) and 255 otherwise; the cursor advances by one modulo 4 |
| PingTargets.PingTarget.AddResponseTimeout | PingMon.h:106-108 | records RTT -1 with TTL 255 |
| PingTargets.PingTarget.GetStats | PingMon.cpp:18-44 | the loop computes `Stats` of the current slots, and changes nothing |
| PingTargets.PingTarget.Update | PingMon.cpp:46-87 | probes exactly when more than 120 s passed, nothing was sent yet, or a burst is under way and 1 s passed; then the response is folded in if the probe was issued, the finish time is stamped and the counter grows by one, issued or not; otherwise nothing changes; the misuse report is raised exactly when a probe starts while any target is registered, this one's own stale registration included; with a resolver installed the host becomes what the resolver returned |
| PingTargets.Absorb | PingMon.cpp:97-101 | definition: a reply records its RTT and TTL, no reply records RTT -1 with TTL -1, which is stored as 255 |
| PingTargets.OnPingResponse | PingMon.cpp:90-104 | a reply calls addResponse with its RTT and TTL, no reply calls addResponseTimeout; the registration is cleared and no further pings are requested |
| PingTargets.StaleRegistrationAfterUnissuedProbe | PingMon.cpp:62-82 | after a probe that could not be issued, the next due probe reports a programming error although nothing is outstanding |
| PingMonitor.OverBudget | PingMon.h:150 | definition: the unsigned time from `t0` to the visit's last clock reading is more than 500 ms |
| PingMonitor.ProcessedFrom | PingMon.h:145-154 | the loop continued from iteration i stops after the first visit over budget, or after the last target |
| PingMonitor.Processed | PingMon.h:145-154 | the number of targets a pass visits: at least one, at most n, every visit before the last within budget, and the last over budget unless all n were visited |
| PingMonitor.ProcessedIs | PingMon.h:145-154 | those conditions determine the count |
| PingMonitor.ProcessedFromAll | PingMon.h:145-154 | a pass with no early visit over budget visits every target |
| PingMonitor.FullPassKeepsCursor | PingMon.h:155 | a full pass leaves the resume cursor where it was |
| PingMonitor.SlowSecondTarget | PingMon.h:145-155 | with three targets and a slow second one, the pass ends there and the next starts with the third |
| PingMonitor.Slot | PingMon.h:146 | the visited index `(i + _curTarget) % _nTargets` is in [0, n) |
| PingMonitor.OffsetOfVisit | PingMon.h:146 | visit i of a pass goes to exactly one target, the one at position i after the cursor |
| PingMonitor.AfterPass | PingMon.h:145-154 | the state of one target after the first k visits keeps its history well formed |
| PingMonitor.VisitedAtMostOnce | PingMon.h:145-154 | each target is updated at most once per pass, by the visit at its position after the cursor, and not at all when that position is not reached |
| PingMonitor.ActsAt | PingMon.cpp:48-57 | definition: visit k finds its target due, in the state the earlier visits of the pass left it in |
| PingMonitor.PendingAfter | PingMon.cpp:62-102 | definition: `_onPingResponseTarget` after k visits; a probing visit registers its target, the callback clears it again when the probe was issued, a visit that does not probe leaves it |
| PingMonitor.MisusedIn | PingMon.cpp:62-65 | definition: some probing visit among the first k found a target registered |
| PingMonitor.IssuedProbesLeaveNothingPending | PingMon.cpp:62-66 | a pass that starts with nothing registered and whose every probe is issued ends with nothing registered and reports no programming error |
| PingMonitor.UnissuedProbeIsReported | PingMon.cpp:62-82 | a due visit whose probe is not issued leaves its target registered, and the next due visit of the pass reports the programming error |
| PingMonitor.PingMon.constructor | PingMon.h:120-123 | no registered targets, cursor 0, six distinct targets zeroed as in a PingMon with static storage; the entries and their arrays are new objects, as the member array `_dests` is part of the new monitor |
| PingMonitor.PingMon.GetTargetCount | PingMon.h:125 | the count of registered targets, at most 6 |
| PingMonitor.PingMon.GetTarget | PingMon.h:131-133 | the table entry at index i, registered or not |
| PingMonitor.PingMon.AddTarget | PingMon.h:126-130 | at capacity nothing changes; otherwise the count grows by one and the entry at the old count is reset with the name and host, and no other entry changes |
| PingMonitor.PingMon.VisitNext | PingMon.h:146-147 | one iteration updates target `(i + curTarget) % n` and no other, moves the registration `_onPingResponseTarget` one visit on, and adds that update's error report |
| PingMonitor.PingMon.Pass | PingMon.h:145-154 | the loop visits `Processed` targets and leaves every target, the registration and the error report as the first that many visits determine |
| PingMonitor.PingMon.Update | PingMon.h:142-156 | every target ends as `AfterPass` of its old state, so it was visited at most once and in round-robin order from the cursor; the pass stops after the first visit over 500 ms; the new cursor is `(curTarget + processed) % n`; `_onPingResponseTarget` ends as `PendingAfter` (null after an issued probe, the target after an unissued one, unchanged without a probe), and `misuse` tells whether some visit probed while a target was registered |
| PingMonitor.ThreeTargets | PingMon.h:120-130 | a monitor just built owns fresh entries, so a caller can register on it; three registrations fill entries 0, 1 and 2 in order with the given names and hosts, and the cursor stays 0 |

Two constants have no contract of their own and are named here:
`PingTargets.EmptyHistory` (PingMon.h:56-61) is the buffer after `_init`,
every RTT -32768, every TTL 255 and the cursor at 0, and
`PingTargets.ZeroState` (PingMon.h:120) is a table entry of a `PingMon` with
static storage before any reset, every field zero or empty.

## Left out

- The `Pinger` library, the callback registration `pinger.OnReceive` and the
  `delay(10)` wait: foreign code. Its outcome is the `probe` parameter. The
  wait is modelled as the callback having run, or not, before the timestamp.
- `Serial` logging: output only. The error report is the `misuse` result.
- The call of a `GetHostnameFunc` inside `getHost` (PingMon.h:92-98): a
  foreign function. A resolver is kept only by identity (`ResolverId`). What
  it returns at the last `getHost` call of a probe is the `resolved`
  parameter of `PingTarget.Update`, which is stored as the host name.
- `PingMonUtil.cpp` and `PingMonUtil.h`: network I/O with a hidden cache.
- The `#if 0` benchmark harness in `crc8.c` (lines 137-185): timing and
  `printf`.
- Only the `HAVE_GLOBALPINGER` build is modelled. In the other builds,
  `PingTarget::update` skips the probe block and just stamps and counts.
- PingStatistics.Stats: loss is the exact fraction `Ratio(100 * lost, sent)`,
  not a `float`. The `PingStats` constructor also passes the mean RTT
  through a `float`, which rounds means above 2^24 ms; the model keeps the
  integer.
- PingTargets.AfterUpdate: `_totalResponses` is unbounded. The source's
  `unsigned` counter wraps after 2^32 probes, which would shift the
  burst phase because 2^32 is not a multiple of 3.
- PingMonitor.PingMon.Update: requires at least one registered target,
  because the source reduces modulo `_nTargets` after the loop even for an
  empty table.
- PingTargets.PingTarget.constructor, PingMonitor.PingMon.constructor:
  the zero fields hold for a `PingMon` of static storage duration. One with
  automatic storage leaves `_name`, the arrays and the counters of its
  entries indeterminate until `reset`, and the model does not cover that.
- Crc8.Compute, Crc8.ComputeWide: the result is kept as the 8 bits of
  the `char` that `crc8` returns. On a platform with a signed `char`, a CRC
  of 0x80 or more reaches the caller as a negative value. Callers that only
  compare two such results see no difference.
- PingMonitor.PingMon.GetTarget: requires an index inside the six-entry
  table; the source does not check it, and an index outside is undefined
  behaviour.
