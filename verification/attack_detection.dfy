/**
  The attack detector: per event type ('syn' and 'dns') a history of
  per-source timestamp deques and one shared adaptive baseline. Each packet
  is checked for a SYN flood and then for a DNS query flood; the first flood
  whose rate reaches 5 events per second is reported, stamped with the time
  elapsed since the capture started.

  The clock is an explicit `now` argument and the packet is reduced to the
  fields the detector reads.
 */
module AttackDetection {
  import opened Window
  import opened Baseline

  /** A network-layer source address. */
  type Address = string

  datatype Option<+T> = None | Some(value: T)

  datatype EventType = Syn | Dns

  /** The order in which the event types are checked for every packet. */
  const EventOrder: seq<EventType> := [Syn, Dns]

  /** Flood alerts below this rate (events per second) are not reported. */
  const MinReportedRate: real := 5.0

  /** The factor applied to the baseline to obtain the alert threshold. */
  function Multiplier(e: EventType): real {
    match e
    case Syn => 2.0
    case Dns => 3.0
  }

  /** The baseline rate of a freshly constructed detector. */
  function InitialBaseline(e: EventType): real {
    match e
    case Syn => 2.0
    case Dns => 3.0
  }

  /** The fields of a captured packet that the detector reads. `tcpFlags` is
      meaningful only when `hasTCP`, `qr` (0 for a query, 1 for a response)
      only when `hasDNS`; `ipSrc` is `None` when the packet has no IPv4
      layer. */
  datatype Packet = Packet(hasTCP: bool, tcpFlags: bv16, hasDNS: bool, qr: nat, ipSrc: Option<Address>)

  /** Whether the packet is an event of the given type. The SYN test looks at
      bit 0x02 only, so a SYN-ACK counts as well. */
  predicate Qualifies(p: Packet, e: EventType)
  {
    match e
    case Syn => p.hasTCP && p.tcpFlags & 0x02 != 0
    case Dns => p.hasDNS && p.qr == 0
  }

  /** The SYN test reads bit 0x02 alone: setting or clearing the ACK bit
      (0x10) never changes whether a packet counts as a SYN event, and a
      packet with any flags but 0x02 set never counts. */
  lemma SynIgnoresAck(p: Packet)
    ensures Qualifies(p.(tcpFlags := p.tcpFlags | 0x10), Syn) == Qualifies(p, Syn)
    ensures Qualifies(p.(tcpFlags := p.tcpFlags & 0xFFEF), Syn) == Qualifies(p, Syn)
    ensures p.tcpFlags & 0x02 == 0 ==> !Qualifies(p, Syn)
  {
  }

  /** The qualification rules stated independently of the bit mask: a packet
      is a SYN event exactly when it has a TCP layer and its flags value
      modulo 4 is at least 2 (bit 0x02 set); a DNS event exactly when it has a
      DNS layer whose `qr` is 0. The source address plays no part. */
  lemma QualificationRules(p: Packet, a: Option<Address>)
    ensures Qualifies(p, Syn) <==> p.hasTCP && p.tcpFlags % 4 >= 2
    ensures Qualifies(p, Dns) <==> p.hasDNS && p.qr == 0
    ensures forall e :: Qualifies(p.(ipSrc := a), e) == Qualifies(p, e)
  {
  }

  /** The state kept for one event type. */
  datatype TypeState = TypeState(windows: map<Address, seq<real>>, baseline: real)

  datatype Detector = Detector(syn: TypeState, dns: TypeState) {
    function Of(e: EventType): TypeState {
      match e
      case Syn => syn
      case Dns => dns
    }

    function With(e: EventType, s: TypeState): (d: Detector)
      ensures d.Of(e) == s
      ensures forall o :: o != e ==> d.Of(o) == Of(o)
    {
      match e
      case Syn => this.(syn := s)
      case Dns => this.(dns := s)
    }
  }

  /** A flood alert, the structured form of the alert message. */
  datatype FloodAlert = FloodAlert(eventType: EventType, source: Address, rate: real)

  /** A reported alert: a flood alert stamped with the time since capture start. */
  datatype Report = Report(relativeTime: real, alert: FloodAlert)

  /** What one call returns: nothing, an alert, or the error raised when a
      qualifying packet has no IPv4 layer to take the source from. */
  datatype Outcome<+A> = Quiet | Alerted(alert: A) | IPLayerMissing

  /** The detector state after a call, together with its outcome. */
  datatype Step<+A> = Step(state: Detector, outcome: Outcome<A>)

  /** The rate of a deque: its length over the window length. */
  function Rate(w: seq<real>): real {
    |w| as real / TimeWindow
  }

  /** A freshly constructed detector. */
  function Init(): (d: Detector)
    ensures forall e :: d.Of(e).windows == map[] && d.Of(e).baseline == InitialBaseline(e)
  {
    Detector(TypeState(map[], InitialBaseline(Syn)), TypeState(map[], InitialBaseline(Dns)))
  }

  /** Processes one packet for one event type: records the event for its
      source, evicts expired timestamps from every deque of that type,
      updates the shared baseline with the source's rate, and alerts when the
      rate reaches the baseline times the type's multiplier. */
  function DetectFlood(d: Detector, p: Packet, e: EventType, now: real): (r: Step<FloodAlert>)
    ensures !Qualifies(p, e) ==> r == Step(d, Quiet)
    ensures Qualifies(p, e) && p.ipSrc.None? ==> r == Step(d, IPLayerMissing)
    ensures forall o :: o != e ==> r.state.Of(o) == d.Of(o)
    ensures Qualifies(p, e) && p.ipSrc.Some? ==>
      var src := p.ipSrc.value;
      var prev := d.Of(e);
      var next := r.state.Of(e);
      && next.windows == Observe(prev.windows, src, now)
      && var rate := Rate(next.windows[src]);
      && rate >= 0.2
      && next.baseline == 0.2 * rate + 0.56 * prev.baseline
      && (r.outcome.Alerted? <==> rate >= next.baseline * Multiplier(e))
      && (r.outcome.Alerted? ==> r.outcome.alert == FloodAlert(e, src, rate))
      && !r.outcome.IPLayerMissing?
  {
    if !Qualifies(p, e) then Step(d, Quiet)
    else if p.ipSrc.None? then Step(d, IPLayerMissing)
    else
      var src := p.ipSrc.value;
      var prev := d.Of(e);
      var windows := Observe(prev.windows, src, now);
      var rate := Rate(windows[src]);
      var baseline := Update(prev.baseline, rate);
      var d' := d.With(e, TypeState(windows, baseline));
      if rate >= baseline * Multiplier(e) then Step(d', Alerted(FloodAlert(e, src, rate)))
      else Step(d', Quiet)
  }

  /** A flood step whose alert is reported rather than filtered out. */
  predicate Surfaces(s: Step<FloodAlert>) {
    s.outcome.Alerted? && s.outcome.alert.rate >= MinReportedRate
  }

  /** Runs the flood check for each event type of `types` in turn, stopping at
      the first alert whose rate reaches the reporting minimum or at the first
      error; alerts below the minimum are dropped and the next type is tried. */
  function Dispatch(d: Detector, p: Packet, types: seq<EventType>, startTime: real, now: real): (r: Step<Report>)
    ensures r.outcome.Alerted? ==>
      var a := r.outcome.alert.alert;
      && r.outcome.alert.relativeTime == now - startTime
      && a.eventType in types
      && Qualifies(p, a.eventType) && p.ipSrc == Some(a.source)
      && a.rate >= MinReportedRate
      && a.source in r.state.Of(a.eventType).windows
      && a.rate == Rate(r.state.Of(a.eventType).windows[a.source])
    ensures p.ipSrc.None? ==> r.state == d
    ensures r.outcome.IPLayerMissing? <==>
      p.ipSrc.None? && exists i :: 0 <= i < |types| && Qualifies(p, types[i])
    ensures |types| == 0 ==> r == Step(d, Quiet)
    ensures |types| > 0 ==>
      var s := DetectFlood(d, p, types[0], now);
      && (Surfaces(s) ==> r == Step(s.state, Alerted(Report(now - startTime, s.outcome.alert))))
      && (s.outcome.IPLayerMissing? ==> r == Step(s.state, IPLayerMissing))
      && (r.outcome.Alerted? && !Surfaces(s) ==> r.outcome.alert.alert.eventType in types[1..])
      && (!Surfaces(s) && !s.outcome.IPLayerMissing? ==>
            r == Dispatch(s.state, p, types[1..], startTime, now))
    decreases |types|
  {
    if |types| == 0 then Step(d, Quiet)
    else
      var s := DetectFlood(d, p, types[0], now);
      match s.outcome
      case IPLayerMissing => Step(s.state, IPLayerMissing)
      case Alerted(a) =>
        if a.rate >= MinReportedRate then Step(s.state, Alerted(Report(now - startTime, a)))
        else Dispatch(s.state, p, types[1..], startTime, now)
      case Quiet => Dispatch(s.state, p, types[1..], startTime, now)
  }

  /** The detector's entry point for one packet: the SYN check first, then
      the DNS check, reporting at most one alert. */
  function DetectAttacks(d: Detector, p: Packet, startTime: real, now: real): (r: Step<Report>)
    ensures var s1 := DetectFlood(d, p, Syn, now);
      Surfaces(s1) ==>
        && r.outcome == Alerted(Report(now - startTime, s1.outcome.alert))
        && r.state == s1.state
        && r.state.dns == d.dns
    ensures var s1 := DetectFlood(d, p, Syn, now);
      var s2 := DetectFlood(s1.state, p, Dns, now);
      !Surfaces(s1) && !s1.outcome.IPLayerMissing? ==>
        && r.state == s2.state
        && r.state.syn == s1.state.syn
        && (r.outcome.Alerted? <==> Surfaces(s2))
        && (r.outcome.Alerted? ==> r.outcome.alert == Report(now - startTime, s2.outcome.alert))
    ensures r.outcome.Alerted? ==>
      var a := r.outcome.alert.alert;
      && a.source in r.state.Of(a.eventType).windows
      && |r.state.Of(a.eventType).windows[a.source]| >= 25
    ensures r.outcome.IPLayerMissing? <==> p.ipSrc.None? && (Qualifies(p, Syn) || Qualifies(p, Dns))
    ensures r.outcome.IPLayerMissing? ==> r.state == d
  {
    assert Qualifies(p, EventOrder[0]) == Qualifies(p, Syn);
    assert Qualifies(p, EventOrder[1]) == Qualifies(p, Dns);
    DispatchAfterSyn(d, p, startTime, now);
    Dispatch(d, p, EventOrder, startTime, now)
  }

  /** Once the SYN check has neither reported nor raised, dispatch goes on
      with the DNS check alone, from the state the SYN check left. */
  lemma DispatchAfterSyn(d: Detector, p: Packet, startTime: real, now: real)
    ensures var s1 := DetectFlood(d, p, Syn, now);
      var s2 := DetectFlood(s1.state, p, Dns, now);
      !Surfaces(s1) && !s1.outcome.IPLayerMissing? ==>
        Dispatch(d, p, EventOrder, startTime, now) ==
          if Surfaces(s2) then Step(s2.state, Alerted(Report(now - startTime, s2.outcome.alert)))
          else if s2.outcome.IPLayerMissing? then Step(s2.state, IPLayerMissing)
          else Step(s2.state, Quiet)
  {
    var s1 := DetectFlood(d, p, Syn, now);
    if !Surfaces(s1) && !s1.outcome.IPLayerMissing? {
      assert EventOrder[1..] == [Dns];
      assert [Dns][1..] == [];
      assert Dispatch(d, p, EventOrder, startTime, now) == Dispatch(s1.state, p, [Dns], startTime, now);
    }
  }

  /** The alert condition restated against the baseline before the update:
      with the default parameters a SYN alert fires exactly when the rate is
      at least 28/15 of the old baseline, a DNS alert at 21/5 of it. */
  lemma AlertCondition(e: EventType, prev: real, rate: real)
    ensures rate >= Update(prev, rate) * Multiplier(e) <==>
      match e
      case Syn => 15.0 * rate >= 28.0 * prev
      case Dns => 5.0 * rate >= 21.0 * prev
  {
  }

  /** The reporting minimum of 5 events per second, applied to a rate of
      `count / 5`, is a minimum of 25 events in the window. */
  lemma LowRateFilter(w: seq<real>)
    ensures Rate(w) >= MinReportedRate <==> |w| >= 25
  {
  }

  /** The invariant of a detector whose clock readings never decrease: every
      deque chronological and no later than `now`, every baseline
      non-negative. */
  predicate WellFormed(d: Detector, now: real) {
    forall e :: Chronological(d.Of(e).windows, now) && 0.0 <= d.Of(e).baseline
  }

  lemma InitWellFormed(now: real)
    ensures WellFormed(Init(), now)
  {
  }

  /** A flood step at a time no earlier than the last keeps the detector
      well formed, and after a recorded event every timestamp left in any
      deque of that event type lies inside the window. */
  lemma DetectFloodWellFormed(d: Detector, p: Packet, e: EventType, last: real, now: real)
    requires WellFormed(d, last) && last <= now
    ensures WellFormed(DetectFlood(d, p, e, now).state, now)
    ensures Qualifies(p, e) && p.ipSrc.Some? ==>
      AllLive(DetectFlood(d, p, e, now).state.Of(e).windows, now)
  {
    var r := DetectFlood(d, p, e, now).state;
    var recorded := Qualifies(p, e) && p.ipSrc.Some?;
    forall o ensures Chronological(r.Of(o).windows, now) && 0.0 <= r.Of(o).baseline {
      if o != e || !recorded {
        assert r.Of(o) == d.Of(o);
        ChronologicalLater(d.Of(o).windows, last, now);
      } else {
        ObserveKeeps(d.Of(e).windows, p.ipSrc.value, last, now);
      }
    }
    if recorded {
      ObserveKeeps(d.Of(e).windows, p.ipSrc.value, last, now);
    }
  }

  lemma {:induction false} DispatchWellFormed(d: Detector, p: Packet, types: seq<EventType>, startTime: real, last: real, now: real)
    requires WellFormed(d, last) && last <= now
    ensures WellFormed(Dispatch(d, p, types, startTime, now).state, now)
    decreases |types|
  {
    if |types| == 0 {
      forall o ensures Chronological(d.Of(o).windows, now) {
        ChronologicalLater(d.Of(o).windows, last, now);
      }
    } else {
      DetectFloodWellFormed(d, p, types[0], last, now);
      var s := DetectFlood(d, p, types[0], now);
      DispatchWellFormed(s.state, p, types[1..], startTime, now, now);
    }
  }

  /** A packet handed to the detector together with the clock reading taken
      when the packet is processed. The packet itself carries no time. */
  datatype ClockedPacket = ClockedPacket(packet: Packet, time: real)

  /** The clock readings of the trace never decrease and none precedes
      `last`: the clock does not step backwards. */
  predicate ClockMonotone(trace: seq<ClockedPacket>, last: real) {
    forall i :: 0 <= i < |trace| ==>
      last <= trace[i].time && (i > 0 ==> trace[i - 1].time <= trace[i].time)
  }

  /** Feeds a sequence of packets to the detector one at a time, as the
      capture loop does, collecting the outcome of every call. */
  function Run(d: Detector, trace: seq<ClockedPacket>, startTime: real): (r: (Detector, seq<Outcome<Report>>))
    ensures |r.1| == |trace|
    ensures forall i :: 0 <= i < |trace| && r.1[i].Alerted? ==>
      && r.1[i].alert.relativeTime == trace[i].time - startTime
      && r.1[i].alert.alert.rate >= MinReportedRate
      && trace[i].packet.ipSrc == Some(r.1[i].alert.alert.source)
    ensures forall i :: 0 <= i < |trace| ==>
      (r.1[i].IPLayerMissing? <==>
        trace[i].packet.ipSrc.None? && (Qualifies(trace[i].packet, Syn) || Qualifies(trace[i].packet, Dns)))
    decreases |trace|
  {
    if |trace| == 0 then (d, [])
    else
      var s := DetectAttacks(d, trace[0].packet, startTime, trace[0].time);
      var rest := Run(s.state, trace[1..], startTime);
      assert forall i :: 1 <= i < |trace| ==> trace[1..][i - 1] == trace[i];
      (rest.0, [s.outcome] + rest.1)
  }

  /** As long as the clock readings never decrease, processing a trace of
      packets keeps the detector well formed: deques stay chronological and
      baselines non-negative. */
  lemma {:induction false} RunWellFormed(d: Detector, trace: seq<ClockedPacket>, startTime: real, last: real)
    requires WellFormed(d, last) && ClockMonotone(trace, last)
    ensures |trace| > 0 ==> WellFormed(Run(d, trace, startTime).0, trace[|trace| - 1].time)
    decreases |trace|
  {
    if |trace| > 0 {
      var t := trace[0].time;
      DispatchWellFormed(d, trace[0].packet, EventOrder, startTime, last, t);
      var s := DetectAttacks(d, trace[0].packet, startTime, t);
      if |trace| > 1 {
        assert ClockMonotone(trace[1..], t) by {
          forall i | 0 <= i < |trace[1..]|
            ensures t <= trace[1..][i].time && (i > 0 ==> trace[1..][i - 1].time <= trace[1..][i].time)
          {
            if i > 0 {
              assert trace[1..][i - 1] == trace[i] && trace[1..][i] == trace[i + 1];
              assert t <= trace[i].time by { OrderedFromHead(trace, last, i); }
            } else {
              assert trace[1..][0] == trace[1];
            }
          }
        }
        RunWellFormed(s.state, trace[1..], startTime, t);
        assert trace[1..][|trace[1..]| - 1] == trace[|trace| - 1];
      }
    }
  }

  /** In a trace whose clock never steps back, no reading precedes the
      first one. */
  lemma {:induction false} OrderedFromHead(trace: seq<ClockedPacket>, last: real, i: nat)
    requires ClockMonotone(trace, last) && i < |trace|
    ensures trace[0].time <= trace[i].time
  {
    if i > 0 {
      OrderedFromHead(trace, last, i - 1);
    }
  }

  /** The SYN check of a SYN-ACK on a fresh detector: the packet is recorded
      as a SYN event and lowers the SYN baseline from 2 to 1.16, but at a
      rate of 0.2 it raises no alert. */
  lemma SynAckFlood(src: Address, now: real)
    ensures DetectFlood(Init(), Packet(true, 0x12, false, 0, Some(src)), Syn, now)
      == Step(Detector(TypeState(map[src := [now]], 1.16), Init().dns), Quiet)
  {
    ObserveFresh(src, now);
    var p := Packet(true, 0x12, false, 0, Some(src));
    assert Qualifies(p, Syn);
    var s1 := DetectFlood(Init(), p, Syn, now);
    assert Rate(s1.state.syn.windows[src]) == 0.2;
  }

  /** The whole packet: a SYN-ACK on a fresh detector is reported as nothing,
      leaves its mark on the SYN state only, and the DNS state is untouched. */
  lemma SynAckRecorded(src: Address, now: real)
    ensures var r := DetectAttacks(Init(), Packet(true, 0x12, false, 0, Some(src)), now, now);
      && r.outcome == Quiet
      && r.state.syn == TypeState(map[src := [now]], 1.16)
      && r.state.dns == Init().dns
  {
    var p := Packet(true, 0x12, false, 0, Some(src));
    SynAckFlood(src, now);
    assert !Qualifies(p, Dns);
  }
}
