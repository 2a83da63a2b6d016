/**
 * The ring of recent pings (client/mozilla/pinghelper.cpp): thirty-two slots indexed by a
 * sixteen-bit sequence number that wraps around.
 */
module PingRing {

  const WINDOW: nat := 32
  const WRAP: nat := 0x1_0000

  datatype Slot = Slot(timestamp: int, latency: int, sequence: nat)

  const UNUSED := Slot(-1, -1, 0)

  /** A ping as history knows it; the latency is that of its last answer, or -1. */
  datatype Ping = Ping(timestamp: int, latency: int)

  /** The last of `n` pings whose slot is `i`, or -1. */
  function LastIn(n: nat, i: nat): (k: int)
    requires i < WINDOW
    ensures -1 <= k < n
    ensures k >= 0 ==> k % WINDOW == i && n - k <= WINDOW
    ensures k == -1 ==> n <= i
  {
    if n == 0 then -1 else if (n - 1) % WINDOW == i then n - 1 else LastIn(n - 1, i)
  }

  lemma {:induction false} LastInUnique(n: nat, k: nat)
    requires k < n && n - k <= WINDOW
    ensures LastIn(n, k % WINDOW) == k
  {
    if k < n - 1 {
      SlotsDiffer(n - 1, k);
      LastInUnique(n - 1, k);
    }
  }

  lemma SlotsDiffer(j: nat, k: nat)
    requires 0 < j - k < WINDOW
    ensures j % WINDOW != k % WINDOW
  {
    assert j - j % WINDOW == WINDOW * (j / WINDOW) && k - k % WINDOW == WINDOW * (k / WINDOW);
  }

  function SlotFor(pings: seq<Ping>, i: nat): Slot
    requires i < WINDOW
  {
    var k := LastIn(|pings|, i);
    if k == -1 then UNUSED else Slot(pings[k].timestamp, pings[k].latency, k % WRAP)
  }

  /** The ring holds exactly the last thirty-two pings, each in the slot of its number. */
  lemma RingHoldsWindow(pings: seq<Ping>, k: nat)
    requires k < |pings|
    ensures |pings| - k <= WINDOW ==>
              SlotFor(pings, k % WINDOW) == Slot(pings[k].timestamp, pings[k].latency, k % WRAP)
    ensures forall i :: 0 <= i < WINDOW ==> LastIn(|pings|, i) == k ==> |pings| - k <= WINDOW && i == k % WINDOW
  {
    if |pings| - k <= WINDOW { LastInUnique(|pings|, k); }
  }

  /** One more ping changes the slot of its number only. */
  lemma SlotsNext(pings: seq<Ping>, next: Ping)
    ensures forall i :: 0 <= i < WINDOW ==>
              SlotFor(pings + [next], i) == if i == |pings| % WINDOW then Slot(next.timestamp, next.latency, |pings| % WRAP)
                                            else SlotFor(pings, i)
  {
  }

  /** The sequence number of one of the last thirty-two pings. */
  ghost predicate Recent(n: nat, sequence: nat) {
    exists k :: 0 <= k < n && n - k <= WINDOW && k % WRAP == sequence
  }

  /** A slot's number identifies its ping: the slot of `s` holds `s` exactly if `s` is recent. */
  lemma SlotHoldsIff(pings: seq<Ping>, sequence: nat)
    requires sequence < WRAP
    ensures SlotFor(pings, sequence % WINDOW).sequence == sequence
            <==> Recent(|pings|, sequence) || (|pings| == 0 && sequence == 0)
  {
    var n, i := |pings|, sequence % WINDOW;
    var j := LastIn(n, i);
    if j >= 0 && j % WRAP == sequence { assert Recent(n, sequence); }
    if Recent(n, sequence) {
      var k :| 0 <= k < n && n - k <= WINDOW && k % WRAP == sequence;
      WrapKeepsSlot(k);
      LastInUnique(n, k);
    }
  }

  /** The window divides the range of the counter, so wrapping does not move a slot. */
  lemma WrapKeepsSlot(k: nat)
    ensures (k % WRAP) % WINDOW == k % WINDOW
  {
    assert k == WRAP * (k / WRAP) + k % WRAP;
    assert WRAP * (k / WRAP) == WINDOW * (2048 * (k / WRAP));
  }

  class PingHelper {
    var sequence: nat
    var data: array<Slot>
    /** Every ping since the last start. */
    ghost var pings: seq<Ping>
    /** What an answer numbered zero has left in the first slot before any ping; -1 otherwise. */
    ghost var early: int

    ghost predicate Valid()
      reads this, data
    {
      && data.Length == WINDOW
      && sequence == |pings| % WRAP
      && (pings != [] ==> early == -1)
      && forall i :: 0 <= i < WINDOW ==>
           data[i] == if i == 0 && pings == [] then UNUSED.(latency := early) else SlotFor(pings, i)
    }

    constructor ()
      ensures Valid() && pings == [] && early == -1 && fresh(data)
    {
      sequence, pings, early := 0, [], -1;
      data := new Slot[WINDOW](_ => UNUSED);
    }

    /** PingHelper::start, the reset of the statistics. */
    method Start()
      requires data.Length == WINDOW
      modifies this`sequence, this`pings, this`early, data
      ensures Valid() && pings == [] && early == -1
    {
      sequence, pings, early := 0, [], -1;
      for i := 0 to WINDOW
        invariant sequence == 0 && pings == [] && early == -1
        invariant forall j :: 0 <= j < i ==> data[j] == UNUSED
      {
        data[i] := Slot(-1, -1, 0);
      }
    }

    /** PingHelper::nextPing; returns the number put into the packet. The first ping clears what came early. */
    method NextPing(now: int) returns (sent: nat)
      requires Valid()
      modifies this`sequence, this`pings, this`early, data
      ensures Valid() && pings == old(pings) + [Ping(now, -1)]
      ensures sent == |old(pings)| % WRAP
    {
      var index := sequence % WINDOW;
      WrapKeepsSlot(|pings|);
      sent := sequence;
      data[index] := Slot(now, -1, sequence);
      sequence := (sequence + 1) % WRAP;
      pings, early := pings + [Ping(now, -1)], -1;
      SlotsNext(old(pings), Ping(now, -1));
    }

    /**
     * PingHelper::pingReceived. An answer is taken exactly if it bears the number of one of
     * the last thirty-two pings, or is numbered zero before any ping; it changes that ping's
     * latency, or the one kept for an early answer, and nothing else.
     */
    method PingReceived(s: nat, now: int) returns (taken: bool)
      requires Valid() && s < WRAP
      modifies this`pings, this`early, data
      ensures Valid()
      ensures taken <==> Recent(|old(pings)|, s) || (|old(pings)| == 0 && s == 0)
      ensures !taken ==> pings == old(pings) && early == old(early)
      ensures taken && |old(pings)| == 0 ==> pings == [] && early == now + 1
      ensures taken && |old(pings)| > 0 ==>
                var k := LastIn(|old(pings)|, s % WINDOW);
                k >= 0 && k % WRAP == s && pings == old(pings)[k := old(pings)[k].(latency := now - old(pings)[k].timestamp)]
    {
      var index := s % WINDOW;
      SlotHoldsIff(pings, s);
      taken := data[index].sequence == s;
      if taken {
        data[index] := data[index].(latency := now - data[index].timestamp);
        ghost var k := LastIn(|pings|, index);
        if k >= 0 {
          pings := pings[k := pings[k].(latency := now - pings[k].timestamp)];
          forall i | 0 <= i < WINDOW && i != index ensures SlotFor(pings, i) == SlotFor(old(pings), i) {
          }
        } else {
          early := now + 1;
        }
      }
    }

    /** The loop of PingHelper::latency over the slots. */
    method SumUp() returns (recvCount: nat, totalMsec: nat)
      requires Valid()
      ensures recvCount == Answered(Told(pings, early)) && totalMsec == Total(Told(pings, early))
    {
      recvCount, totalMsec := 0, 0;
      ghost var told := Told(pings, early);
      for i := 0 to data.Length
        invariant recvCount == Answered(told[..i]) && totalMsec == Total(told[..i])
      {
        assert told[..i + 1][..i] == told[..i];
        if data[i].latency >= 0 {
          recvCount := recvCount + 1;
          totalMsec := totalMsec + data[i].latency;
        }
      }
      assert told[..data.Length] == told;
    }

    /**
     * PingHelper::latency: the mean of the answered ones among the last thirty-two pings, to the
     * nearest integer. Before any ping it is what an early answer left, or zero.
     */
    method Latency() returns (mean: int)
      requires Valid()
      ensures pings == [] ==> mean == if early >= 0 then early else 0
      ensures pings != [] ==>
                var count, total := Answered(Window(pings)), Total(Window(pings));
                if count == 0 then mean == 0 else 2 * total - count < 2 * mean * count <= 2 * total + count
    {
      var recvCount, totalMsec := SumUp();
      ToldSums(pings, early);
      if recvCount <= 0 { return 0; }
      NearestInteger(totalMsec, recvCount);
      totalMsec := totalMsec + recvCount / 2;
      return totalMsec / recvCount;
    }
  }

  /** The latencies slot by slot, with the early answer while there is no ping. */
  function Told(pings: seq<Ping>, early: int): (r: seq<int>)
    ensures |r| == WINDOW
  {
    if pings == [] then Ring(pings)[0 := early] else Ring(pings)
  }

  lemma ToldSums(pings: seq<Ping>, early: int)
    ensures pings == [] ==> Answered(Told(pings, early)) == One(early) && Total(Told(pings, early)) == Time(early)
    ensures pings != [] ==> SameSums(Told(pings, early), Window(pings))
  {
    RingIsWindow(pings);
    if pings == [] {
      NothingAnswered(Ring(pings));
      SumsReplaced(Ring(pings), 0, early);
      assert Ring(pings)[0] == -1;
    }
  }

  /**
   * Any pings and answers after a start: as soon as there has been a ping, the ring tells the
   * pings of the run, sent when they were, and nothing else, whatever came before the first.
   */
  method Run(h: PingHelper, events: seq<Happening>)
    requires h.data.Length == WINDOW
    modifies h, h.data
    ensures h.Valid() && Stamps(h.pings) == Sent(events) && h.data == old(h.data)
  {
    h.Start();
    for i := 0 to |events|
      invariant h.Valid() && Stamps(h.pings) == Sent(events[..i]) && h.data == old(h.data)
    {
      assert events[..i + 1][..i] == events[..i];
      match events[i] {
        case Ask(now) => var sent := h.NextPing(now);
        case Answer(s, now) => var taken := h.PingReceived(s, now);
      }
    }
    assert events[..|events|] == events;
  }

  type Sequence = n: nat | n < WRAP

  datatype Happening = Ask(now: int) | Answer(s: Sequence, now: int)

  /** The times at which pings were sent, in order. */
  function Sent(events: seq<Happening>): seq<int> {
    if events == [] then []
    else Sent(events[..|events| - 1]) + if events[|events| - 1].Ask? then [events[|events| - 1].now] else []
  }

  function Stamps(pings: seq<Ping>): (ts: seq<int>)
    ensures |ts| == |pings|
  {
    seq(|pings|, i requires 0 <= i < |pings| => pings[i].timestamp)
  }

  function One(latency: int): nat { if latency >= 0 then 1 else 0 }

  function Time(latency: int): nat { if latency >= 0 then latency else 0 }

  /** How many of these latencies are answers, and their sum. */
  function Answered(ls: seq<int>): nat {
    if ls == [] then 0 else Answered(ls[..|ls| - 1]) + One(ls[|ls| - 1])
  }

  function Total(ls: seq<int>): nat {
    if ls == [] then 0 else Total(ls[..|ls| - 1]) + Time(ls[|ls| - 1])
  }

  /** The latencies slot by slot. */
  function Ring(pings: seq<Ping>): (r: seq<int>)
    ensures |r| == WINDOW
  {
    seq(WINDOW, i requires 0 <= i < WINDOW => SlotFor(pings, i).latency)
  }

  function Latencies(pings: seq<Ping>): (ls: seq<int>)
    ensures |ls| == |pings|
  {
    seq(|pings|, i requires 0 <= i < |pings| => pings[i].latency)
  }

  function Newest(ls: seq<int>): seq<int> {
    if |ls| <= WINDOW then ls else ls[|ls| - WINDOW..]
  }

  /** The latencies of the last thirty-two pings, oldest first. */
  function Window(pings: seq<Ping>): seq<int> { Newest(Latencies(pings)) }

  lemma {:induction false} SumsReplaced(ls: seq<int>, i: nat, v: int)
    requires i < |ls|
    ensures Answered(ls[i := v]) == Answered(ls) - One(ls[i]) + One(v)
    ensures Total(ls[i := v]) == Total(ls) - Time(ls[i]) + Time(v)
  {
    var n := |ls| - 1;
    if i < n {
      SumsReplaced(ls[..n], i, v);
      assert ls[i := v][..n] == ls[..n][i := v];
    } else {
      assert ls[i := v][..n] == ls[..n];
    }
  }

  lemma {:induction false} SumsFirst(ls: seq<int>)
    requires ls != []
    ensures Answered(ls) == One(ls[0]) + Answered(ls[1..]) && Total(ls) == Time(ls[0]) + Total(ls[1..])
  {
    var n := |ls| - 1;
    if n > 0 {
      SumsFirst(ls[..n]);
      assert ls[1..][..n - 1] == ls[..n][1..];
    } else {
      assert ls[..n] == [] && ls[1..] == [];
    }
  }

  lemma {:induction false} NothingAnswered(ls: seq<int>)
    requires forall i :: 0 <= i < |ls| ==> ls[i] == -1
    ensures Answered(ls) == 0 && Total(ls) == 0
  {
    if ls != [] { NothingAnswered(ls[..|ls| - 1]); }
  }

  /** One more ping replaces one slot: the oldest of the window, once the window is full. */
  lemma RingNext(pings: seq<Ping>)
    requires pings != []
    ensures var n := |pings| - 1;
            Ring(pings) == Ring(pings[..n])[n % WINDOW := pings[n].latency]
  {
    var n := |pings| - 1;
    var before, at := pings[..n], n % WINDOW;
    forall i | 0 <= i < WINDOW ensures Ring(pings)[i] == Ring(before)[at := pings[n].latency][i] {
      SlotNext(pings, i);
    }
  }

  lemma SlotNext(pings: seq<Ping>, i: nat)
    requires pings != [] && i < WINDOW
    ensures var n := |pings| - 1;
            SlotFor(pings, i).latency == if i == n % WINDOW then pings[n].latency else SlotFor(pings[..n], i).latency
  {
  }

  lemma OldestLeaves(pings: seq<Ping>)
    requires |pings| >= WINDOW
    ensures SlotFor(pings, |pings| % WINDOW).latency == Window(pings)[0]
  {
    var k := |pings| - WINDOW;
    LastInUnique(|pings|, k);
    assert k % WINDOW == |pings| % WINDOW;
    assert Window(pings)[0] == pings[k].latency;
  }

  lemma StillUnused(pings: seq<Ping>)
    requires |pings| < WINDOW
    ensures SlotFor(pings, |pings| % WINDOW).latency == -1
  {
    assert |pings| % WINDOW == |pings|;
  }

  lemma LatenciesNext(pings: seq<Ping>)
    requires pings != []
    ensures Latencies(pings) == Latencies(pings[..|pings| - 1]) + [pings[|pings| - 1].latency]
  {
  }

  lemma NewestNext(ls: seq<int>, v: int)
    ensures Newest(ls + [v]) == (if |ls| >= WINDOW then Newest(ls)[1..] else Newest(ls)) + [v]
  {
  }

  lemma SumsAppend(ls: seq<int>, v: int)
    ensures Answered(ls + [v]) == Answered(ls) + One(v) && Total(ls + [v]) == Total(ls) + Time(v)
  {
    assert (ls + [v])[..|ls|] == ls;
  }

  predicate SameSums(a: seq<int>, b: seq<int>) { Answered(a) == Answered(b) && Total(a) == Total(b) }

  lemma SumsSlide(ring: seq<int>, at: nat, window: seq<int>, v: int)
    requires at < |ring| && SameSums(ring, window) && window != [] && ring[at] == window[0]
    ensures SameSums(ring[at := v], window[1..] + [v])
  {
    SumsReplaced(ring, at, v);
    SumsFirst(window);
    SumsAppend(window[1..], v);
  }

  lemma SumsGrow(ring: seq<int>, at: nat, window: seq<int>, v: int)
    requires at < |ring| && SameSums(ring, window) && ring[at] == -1
    ensures SameSums(ring[at := v], window + [v])
  {
    SumsReplaced(ring, at, v);
    SumsAppend(window, v);
  }

  /** Slot by slot or ping by ping, the sums are the same. */
  lemma {:induction false} RingIsWindow(pings: seq<Ping>)
    ensures SameSums(Ring(pings), Window(pings))
  {
    if pings == [] {
      NothingAnswered(Ring(pings));
    } else {
      var n := |pings| - 1;
      var before := pings[..n];
      RingIsWindow(before);
      RingNext(pings);
      LatenciesNext(pings);
      NewestNext(Latencies(before), pings[n].latency);
      if n >= WINDOW {
        OldestLeaves(before);
        SumsSlide(Ring(before), n % WINDOW, Window(before), pings[n].latency);
      } else {
        StillUnused(before);
        SumsGrow(Ring(before), n % WINDOW, Window(before), pings[n].latency);
      }
    }
  }

  lemma NearestInteger(total: nat, count: nat)
    requires count > 0
    ensures var mean := (total + count / 2) / count;
            2 * total - count < 2 * mean * count <= 2 * total + count
  {
    var mean := (total + count / 2) / count;
    var rest := (total + count / 2) % count;
    assert total + count / 2 == mean * count + rest;
    assert 2 * mean * count == 2 * (mean * count);
  }
}
