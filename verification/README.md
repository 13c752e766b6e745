# Picosniff attack detection in Dafny

A model of the flood detector of Picosniff, a terminal network-traffic
monitor. The detector (`AttackDetector` in `src/attack_detection.py`) looks at
every captured packet for two kinds of flood: SYN floods and DNS query floods.

For each event type (`syn`, `dns`) it keeps:

- a map from source IPv4 address to a deque of event timestamps;
- one baseline rate shared by every source of that type.

A qualifying packet goes through these steps:

1. Its time is appended to its source's deque.
2. Expired timestamps are popped from the head of every deque of that type.
3. The source's rate is taken as the deque length over the 5-second window.
4. The baseline is decayed by 0.3 and then blended with the rate by an
   exponentially weighted moving average with weight 0.2.
5. An alert fires when the rate reaches the baseline times 2 for SYN, or
   times 3 for DNS.

`detect_attacks` runs the SYN check and then the DNS check. It reports the
first alert whose rate is at least 5 events per second, stamped with the time
since the capture started.

The model is functional. The detector state is an immutable `Detector` value.
Every step is a pure function that takes the clock as an explicit `now`. The
packet is reduced to the fields the detector reads: TCP presence and flags,
DNS presence and `qr`, and the IPv4 source.

Modules:

- `Window` (window.dfy): one deque and the per-source history. It covers
  recording an event, head-only eviction, and the chronological and liveness
  invariants.
- `Baseline` (baseline.dfy): the decay-then-blend update of the shared
  baseline.
- `AttackDetection` (attack_detection.dfy): packet qualification, the
  detector state, the per-type flood step (`DetectFlood`, modelling
  `_detect_flood` and `_cleanup_events`), and the dispatch (`Dispatch` and
  `DetectAttacks`, modelling `detect_attacks`). It also holds the invariants
  over traces of packets.

Facts about the code that shape the model:

- The SYN test reads only bit 0x02 of the TCP flags (line 52), so a SYN-ACK
  counts as a SYN event.
- There is no alert cooldown and no way to reset the detector's state.
- The module docstring (line 8) names ARP-spoofing detection, but it is not
  implemented: `arp_map` (line 38) is never read or written afterwards.
- One window length (5 s, line 43) serves both event types.
- A qualifying packet without an IPv4 layer raises at `packet[IP]`
  (lines 53 and 55). The model returns the outcome `IPLayerMissing` and
  proves that the detector state is then unchanged, because the exception
  comes before any mutation.

## Model

| member | source | states |
|---|---|---|
| Window.Evict | src/attack_detection.py:78-80 | Only head entries are removed: the result is a suffix of the deque, its first entry is inside the window, and every removed entry had expired |
| Window.EvictSorted | src/attack_detection.py:78-80 | On a chronological deque, every entry left after eviction is inside the window, and their number is the number of live timestamps of the whole deque |
| Window.EvictKeeps | src/attack_detection.py:78-80 | Eviction keeps a chronological deque chronological and leaves only live entries |
| Window.LiveHeadKeepsAll | src/attack_detection.py:79-80 | Eviction stops at the first live entry: a deque whose head is inside the window is kept whole, whatever the age of the entries behind it |
| Window.OutOfOrderSurvives | src/attack_detection.py:79-80 | An example: the deque `[10.0, 0.0]` at time 10, which a backwards clock step leaves behind, is kept whole by cleanup although its second entry has expired |
| Window.Observe | src/attack_detection.py:60-61 | Recording an event adds the source if new. Every other deque of the type is cleaned by the head rule. The source's deque is its old deque with `now` appended, cleaned by the same head rule: a non-empty suffix whose last entry is `now` |
| Window.Record | src/attack_detection.py:60 | Appending to a default dictionary of deques: the source gains a deque if it had none, its deque gets `now` at the tail, and every other deque is unchanged |
| Window.Cleanup | src/attack_detection.py:75-80 | Cleanup visits every deque of the event type, not only the current source's: no source is removed, and each deque is cleaned by the head rule of `Window.Evict` |
| Window.ObserveCountsLive | src/attack_detection.py:60-63 | On a chronological history, the recording source's deque after cleanup holds exactly as many timestamps as its old deque plus `now` has inside the window, so the rate counts every live event of that source |
| Window.ObserveFresh | src/attack_detection.py:40-41 | The first event of a source creates a deque that holds exactly that timestamp |
| Window.ObserveKeeps | src/attack_detection.py:60-61 | Recording at a time no earlier than any stored timestamp keeps every deque chronological. Afterwards every timestamp in every deque of the type is inside the window |
| Baseline.Update | src/attack_detection.py:66-67 | The new baseline is `0.2 * rate + 0.56 * old`, and it is non-negative when the old baseline and the rate are |
| Baseline.FixedPoint | src/attack_detection.py:66-67 | An update leaves the baseline unchanged exactly when the baseline is 5/11 of the rate |
| Baseline.Contraction | src/attack_detection.py:66-67 | Two baselines fed the same rate end 0.56 times as far apart |
| Baseline.Monotone | src/attack_detection.py:66-67 | The update is monotone in the old baseline and in the rate |
| AttackDetection.Init | src/attack_detection.py:39-47 | A fresh detector has empty histories for both types and baselines 2 (SYN) and 3 (DNS) |
| AttackDetection.QualificationRules | src/attack_detection.py:52-57 | A packet is a SYN event exactly when it has a TCP layer and its flags value modulo 4 is at least 2 (bit 0x02 set), and a DNS event exactly when it has a DNS layer with `qr` 0; the source address plays no part |
| AttackDetection.SynIgnoresAck | src/attack_detection.py:52 | SYN qualification does not depend on the ACK bit, and a packet without bit 0x02 never qualifies |
| AttackDetection.DetectFlood | src/attack_detection.py:51-73 | A non-qualifying packet returns nothing and changes nothing. A qualifying packet without an IPv4 layer raises and changes nothing. The other event type's state is never touched. Otherwise the windows are those of a recorded event; the rate is the deque length over 5 and is at least 0.2; the baseline follows the recurrence; and an alert naming the source and rate fires exactly when the rate reaches the new baseline times the multiplier |
| AttackDetection.AlertCondition | src/attack_detection.py:66-70 | Measured against the baseline before the update, a SYN alert fires exactly when 15 * rate >= 28 * old, and a DNS alert exactly when 5 * rate >= 21 * old |
| AttackDetection.LowRateFilter | src/attack_detection.py:89 | The 5 events per second minimum applied to a rate of count / 5 is a minimum of 25 events in the window |
| AttackDetection.Dispatch | src/attack_detection.py:83-91 | With no types left the result is no alert and no change. Otherwise the first type is checked: if its alert reaches rate 5 it is reported at once, stamped with the time since capture start; if it raises, the error is returned with the state it left; otherwise the remaining types are checked from the state it left. A reported alert comes from a checked type the packet qualifies for, names its IPv4 source, and has rate at least 5 equal to its deque length over 5. The error is raised exactly when the packet has no IPv4 layer and qualifies for some checked type, and the state is then unchanged |
| AttackDetection.DetectAttacks | src/attack_detection.py:82-91 | SYN is checked first. A SYN alert at rate 5 or more is reported at once and the DNS state is not updated. Otherwise the DNS check runs on the state the SYN check left, and its alert is reported exactly when its rate is at least 5. A reported alert's window holds at least 25 events. The error outcome happens exactly for a packet without an IPv4 layer that qualifies for either type, and leaves the state unchanged |
| AttackDetection.DispatchAfterSyn | src/attack_detection.py:83-90 | When the SYN check neither reports nor raises, dispatch is the DNS check alone from the state the SYN check left |
| AttackDetection.InitWellFormed | src/attack_detection.py:39-47 | A fresh detector satisfies the invariant: chronological deques and non-negative baselines |
| AttackDetection.DetectFloodWellFormed | src/attack_detection.py:59-67 | One flood step at a time no earlier than the last keeps the invariant. After a recorded event every timestamp of every source's deque of that type is inside the window |
| AttackDetection.DispatchWellFormed | src/attack_detection.py:83-84 | The invariant survives the SYN-then-DNS dispatch |
| AttackDetection.RunWellFormed | src/attack_detection.py:82-91 | Processing packets at clock readings that never decrease keeps the deques chronological and the baselines non-negative |
| AttackDetection.SynAckFlood | src/attack_detection.py:52-73 | On a fresh detector, a SYN-ACK is recorded as a SYN event, lowers the SYN baseline from 2 to 1.16, and raises no alert |
| AttackDetection.SynAckRecorded | src/attack_detection.py:82-91 | On a fresh detector, a SYN-ACK is reported as nothing, changes the SYN state as above, and leaves the DNS state untouched |

## Left out

- Packet capture and layer access (`haslayer`, `packet[TCP].flags`,
  `packet[IP].src`): a `Packet` record with those fields replaces the scapy
  packet.
- The clock. The code reads `time.time()` at three places: in
  `_detect_flood` (line 59) and `_cleanup_events` (line 77) for every
  qualifying event type checked, and in `detect_attacks` (line 86) for every
  flood message. A packet can thus read the clock from zero up to six times.
  The model uses one explicit `now` per packet, so the SYN and DNS checks,
  the appended timestamp and the eviction all see the same time.
  `start_time` is a parameter.
- Message text. The alert is structured (type, source, rate, relative time)
  rather than an f-string. The `.2f` formatting and the re-parsing of the
  rate from the text are left out. The rate is a multiple of 0.2, so that
  round trip does not change it, and the filter is `rate >= 5`.
- Floating point: rates and baselines are `real`, and IEEE-754 rounding is
  not modelled.
- The `arp_map` field (line 38) is never used by the code. ARP-spoofing
  detection, named in the module's docstring, does not exist in it.
- The capture loop that calls the detector is not part of this model.
  `AttackDetection.Run` only feeds a trace of packets in order, keeping the
  (unchanged) state after a packet that raised.
- User interface, command handling, threading, the packet printer and
  statistics, interface listing, and the attack traffic generators. None of
  them is part of the detection logic.
- Clock steps backwards. The window invariant (every retained timestamp is
  inside the window) is proved only for non-decreasing clock readings. The
  packet carries no time: every timestamp is a `time.time()` reading taken
  while the packet is processed (lines 59 and 77), so packets captured out of
  order still get their timestamps in processing order. `time.time()` is not
  monotonic, though, and can step back. Head-only eviction then keeps
  expired entries, as `Window.OutOfOrderSurvives` shows.
