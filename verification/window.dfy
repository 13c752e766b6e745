/**
  The per-source event history of one event type: for every source a deque of
  event timestamps, appended at the tail and evicted from the head once they
  fall out of the sliding time window.
 */
module Window {

  /** Length of the sliding window, in seconds. */
  const TimeWindow: real := 5.0

  /** A timestamp has expired at `now` once it lies strictly more than
      `TimeWindow` seconds in the past. */
  predicate Expired(t: real, now: real) {
    now - t > TimeWindow
  }

  /** The deque is in chronological (non-decreasing) order. */
  predicate Sorted(w: seq<real>) {
    forall i, j :: 0 <= i < j < |w| ==> w[i] <= w[j]
  }

  /** No timestamp of the deque lies in the future of `now`. */
  predicate NotAfter(w: seq<real>, now: real) {
    forall i :: 0 <= i < |w| ==> w[i] <= now
  }

  /** Every timestamp of the deque is still inside the window at `now`. */
  predicate Live(w: seq<real>, now: real) {
    forall i :: 0 <= i < |w| ==> !Expired(w[i], now)
  }

  /** Pops expired timestamps off the head of one deque, stopping at the first
      one that is still inside the window. Entries behind that one are kept
      whatever their age. */
  function Evict(w: seq<real>, now: real): (r: seq<real>)
    ensures |r| <= |w| && r == w[|w| - |r|..]
    ensures |r| > 0 ==> !Expired(r[0], now)
    ensures forall i :: 0 <= i < |w| - |r| ==> Expired(w[i], now)
    decreases |w|
  {
    if |w| > 0 && Expired(w[0], now) then Evict(w[1..], now) else w
  }

  /** The number of timestamps of `w` that are inside the window at `now`. */
  function CountLive(w: seq<real>, now: real): nat
    decreases |w|
  {
    if |w| == 0 then 0
    else (if Expired(w[0], now) then 0 else 1) + CountLive(w[1..], now)
  }

  lemma {:induction false} CountLiveOfLive(w: seq<real>, now: real)
    requires Live(w, now)
    ensures CountLive(w, now) == |w|
    decreases |w|
  {
    if |w| > 0 {
      assert Live(w[1..], now) by {
        forall i | 0 <= i < |w[1..]| ensures !Expired(w[1..][i], now) {
          assert w[1..][i] == w[i + 1];
        }
      }
      CountLiveOfLive(w[1..], now);
    }
  }

  /** On a chronologically ordered deque, eviction leaves exactly the
      timestamps that are inside the window: all of them live, and as many
      as there are live timestamps in the whole deque. */
  lemma {:induction false} EvictSorted(w: seq<real>, now: real)
    requires Sorted(w)
    ensures Live(Evict(w, now), now)
    ensures |Evict(w, now)| == CountLive(w, now)
    decreases |w|
  {
    if |w| > 0 && Expired(w[0], now) {
      assert Sorted(w[1..]) by {
        forall i, j | 0 <= i < j < |w[1..]| ensures w[1..][i] <= w[1..][j] {
          assert w[1..][i] == w[i + 1] && w[1..][j] == w[j + 1];
        }
      }
      EvictSorted(w[1..], now);
    } else if |w| > 0 {
      assert Live(w, now) by {
        forall i | 0 <= i < |w| ensures !Expired(w[i], now) {
          if i > 0 { assert w[0] <= w[i]; }
        }
      }
      CountLiveOfLive(w, now);
    }
  }

  /** A suffix of a chronological deque is chronological. */
  lemma SuffixKeeps(w: seq<real>, k: nat, now: real)
    requires Sorted(w) && NotAfter(w, now) && k <= |w|
    ensures Sorted(w[k..]) && NotAfter(w[k..], now)
  {
    var r := w[k..];
    forall i, j | 0 <= i < j < |r| ensures r[i] <= r[j] {
      assert r[i] == w[k + i] && r[j] == w[k + j];
    }
    forall i | 0 <= i < |r| ensures r[i] <= now {
      assert r[i] == w[k + i];
    }
  }

  /** Eviction keeps a chronological deque chronological and, on one, leaves
      only live timestamps. */
  lemma EvictKeeps(w: seq<real>, now: real)
    requires Sorted(w) && NotAfter(w, now)
    ensures Sorted(Evict(w, now)) && NotAfter(Evict(w, now), now) && Live(Evict(w, now), now)
  {
    EvictSorted(w, now);
    var r := Evict(w, now);
    SuffixKeeps(w, |w| - |r|, now);
  }

  /** Eviction stops at a live head: when the first timestamp is inside the
      window, the deque is kept whole, whatever the age of the entries behind
      it. */
  lemma LiveHeadKeepsAll(w: seq<real>, now: real)
    requires |w| > 0 && !Expired(w[0], now)
    ensures Evict(w, now) == w
  {
  }

  /** A clock that steps backwards defeats head-only eviction: a timestamp
      recorded before the step-back sits behind a later, live one, and
      survives the cleanup although it has expired. */
  lemma OutOfOrderSurvives()
    ensures var w := [10.0, 0.0];
            Evict(w, 10.0) == w && Expired(w[1], 10.0)
  {
    var w := [10.0, 0.0];
    assert !Expired(w[0], 10.0);
  }

  /** Appends `now` to the deque of `src`, creating an empty deque first when
      the source has not been seen (a default dictionary of deques). */
  function Record<K>(h: map<K, seq<real>>, src: K, now: real): (h': map<K, seq<real>>)
    ensures h'.Keys == h.Keys + {src}
    ensures src in h ==> h'[src] == h[src] + [now]
    ensures src !in h ==> h'[src] == [now]
    ensures forall k :: k in h && k != src ==> h'[k] == h[k]
  {
    h[src := (if src in h then h[src] else []) + [now]]
  }

  /** Evicts expired timestamps from the head of every deque of the history,
      not only the deque of the current source. Sources are never removed,
      even when their deque becomes empty. */
  function Cleanup<K>(h: map<K, seq<real>>, now: real): (h': map<K, seq<real>>)
    ensures h'.Keys == h.Keys
    ensures forall k :: k in h ==> h'[k] == Evict(h[k], now)
  {
    map k | k in h :: Evict(h[k], now)
  }

  /** Records an event of `src` at `now` and then evicts expired timestamps
      from every deque of the history. The deque of `src` keeps `now` as its
      last entry, so it is never empty afterwards. */
  function Observe<K>(h: map<K, seq<real>>, src: K, now: real): (h': map<K, seq<real>>)
    ensures h'.Keys == h.Keys + {src}
    ensures forall k :: k in h && k != src ==> h'[k] == Evict(h[k], now)
    ensures var recorded := (if src in h then h[src] else []) + [now];
      && h'[src] == Evict(recorded, now)
      && 0 < |h'[src]| <= |recorded|
      && h'[src] == recorded[|recorded| - |h'[src]|..]
      && h'[src][|h'[src]| - 1] == now
  {
    var recorded := Record(h, src, now);
    var w := recorded[src];
    assert !Expired(w[|w| - 1], now);
    Cleanup(recorded, now)
  }

  /** On a chronological history the deque of the recording source ends up
      holding exactly its live events: as many timestamps as its old deque
      with `now` appended has inside the window. */
  lemma ObserveCountsLive<K>(h: map<K, seq<real>>, src: K, last: real, now: real)
    requires Chronological(h, last) && last <= now
    ensures var recorded := (if src in h then h[src] else []) + [now];
      |Observe(h, src, now)[src]| == CountLive(recorded, now)
  {
    var recorded := (if src in h then h[src] else []) + [now];
    ChronologicalLater(h, last, now);
    if src in h {
      AppendNow(h[src], now);
    }
    EvictSorted(recorded, now);
  }

  /** Every deque of the history is in chronological order and holds no
      timestamp later than `now`. */
  predicate Chronological<K>(h: map<K, seq<real>>, now: real) {
    forall k :: k in h ==> Sorted(h[k]) && NotAfter(h[k], now)
  }

  /** Every timestamp of every deque of the history is inside the window. */
  predicate AllLive<K>(h: map<K, seq<real>>, now: real) {
    forall k :: k in h ==> Live(h[k], now)
  }

  lemma ChronologicalLater<K>(h: map<K, seq<real>>, last: real, now: real)
    requires Chronological(h, last) && last <= now
    ensures Chronological(h, now)
  {
  }

  /** Appending `now` to a chronological deque keeps it chronological. */
  lemma AppendNow(w: seq<real>, now: real)
    requires Sorted(w) && NotAfter(w, now)
    ensures Sorted(w + [now]) && NotAfter(w + [now], now)
  {
  }

  /** Recording an event at a time no earlier than any stored timestamp keeps
      the history chronological, and afterwards every timestamp left in any
      deque lies inside the window. */
  lemma ObserveKeeps<K>(h: map<K, seq<real>>, src: K, last: real, now: real)
    requires Chronological(h, last) && last <= now
    ensures Chronological(Observe(h, src, now), now)
    ensures AllLive(Observe(h, src, now), now)
  {
    ChronologicalLater(h, last, now);
    var recorded := Record(h, src, now);
    forall k | k in recorded ensures Sorted(recorded[k]) && NotAfter(recorded[k], now) {
      if k == src && src in h {
        AppendNow(h[src], now);
      }
    }
    var h' := Observe(h, src, now);
    assert h' == Cleanup(recorded, now);
    forall k | k in h' ensures Sorted(h'[k]) && NotAfter(h'[k], now) && Live(h'[k], now) {
      EvictKeeps(recorded[k], now);
    }
  }

  /** The first event of a fresh history creates a deque holding just it. */
  lemma ObserveFresh<K>(src: K, now: real)
    ensures Observe(map[], src, now) == map[src := [now]]
  {
    var empty: map<K, seq<real>> := map[];
    var h := Observe(empty, src, now);
    assert h.Keys == {src};
    assert h[src] == [now] by {
      assert src !in empty;
      assert [] + [now] == [now];
      EvictFresh(now);
    }
    SingletonMap(h, src, [now]);
  }

  /** A timestamp taken now is inside the window, so eviction keeps it. */
  lemma EvictFresh(now: real)
    ensures Evict([now], now) == [now]
  {
  }

  lemma SingletonMap<K>(h: map<K, seq<real>>, k: K, w: seq<real>)
    requires h.Keys == {k} && h[k] == w
    ensures h == map[k := w]
  {
  }
}
