/**
  * The hybrid logical clock (src/hlc.rs): one atomic counter, any number of threads, each in the loop of
  * `now`: load the counter, read the clock, compare and swap; `sync` raises the counter in one atomic step.
  */
module Hlc {
  import opened ByteStrings

  /** `MASK` clears the low eight bits. */
  function Masked(millis: nat): nat { millis - millis % 256 }

  /** The value `now` tries to install. */
  function Tick(millis: nat, latest: nat): nat {
    var masked := Masked(millis);
    (if masked > latest then masked else latest) + 1
  }

  /** Where a thread inside `now` is; a thread that is not in the map is outside. */
  datatype Thread = Loaded(latest: nat) | Computed(latest: nat, next: nat)

  /** `issued` holds the timestamps returned, in the order of the swaps that made them. */
  datatype Clocks = Clocks(counter: nat, threads: map<nat, Thread>, issued: seq<nat>)

  datatype Event =
    | Load(thread: nat)
    | ReadClock(thread: nat, millis: nat)
    | Swap(thread: nat)
    | Sync(timestamp: nat)

  /** One atomic step; none when the thread is elsewhere in its loop. */
  function Step(s: Clocks, e: Event): Option<Clocks> {
    match e
    case Load(x) =>
      if x in s.threads then None else Some(s.(threads := s.threads[x := Loaded(s.counter)]))
    case ReadClock(x, millis) =>
      if x !in s.threads || s.threads[x].Computed? then None
      else
        var latest := s.threads[x].latest;
        Some(s.(threads := s.threads[x := Computed(latest, Tick(millis, latest))]))
    case Swap(x) =>
      if x !in s.threads || s.threads[x].Loaded? then None
      else
        var left := s.threads - {x};
        var next := s.threads[x].next;
        if s.counter == s.threads[x].latest then Some(Clocks(next, left, s.issued + [next]))
        else Some(s.(threads := left))
    case Sync(t) => Some(s.(counter := if t > s.counter then t else s.counter))
  }

  function Run(s: Clocks, events: seq<Event>): Option<Clocks>
    decreases |events|
  {
    if events == [] then Some(s)
    else
      match Step(s, events[0])
      case None => None
      case Some(t) => Run(t, events[1..])
  }

  function Init(): Clocks { Clocks(0, map[], []) }

  /** The greatest masked clock reading or synchronized timestamp, or 0. */
  function Highest(events: seq<Event>): nat {
    if events == [] then 0
    else
      var rest := Highest(events[..|events| - 1]);
      var v := match events[|events| - 1]
               case ReadClock(_, millis) => Masked(millis)
               case Sync(t) => t
               case _ => 0;
      if v > rest then v else rest
  }

  /** A clock reading is ahead of what was loaded, and no further than the readings explain. */
  predicate Inv(s: Clocks, highest: nat) {
    && s.counter <= highest + |s.issued|
    && (forall i :: 0 <= i < |s.issued| ==> s.issued[i] <= s.counter)
    && (forall i, j :: 0 <= i < j < |s.issued| ==> s.issued[i] < s.issued[j])
    && forall x :: x in s.threads ==>
         && s.threads[x].latest <= s.counter
         && (s.threads[x].Computed? ==>
               && s.threads[x].latest < s.threads[x].next
               && (s.threads[x].next <= highest + 1 || s.threads[x].next == s.threads[x].latest + 1))
  }

  lemma StepKeepsInv(s: Clocks, e: Event, t: Clocks, highest: nat, now: nat)
    requires Inv(s, highest) && Step(s, e) == Some(t) && highest <= now
    requires e.ReadClock? ==> Masked(e.millis) <= now
    requires e.Sync? ==> e.timestamp <= now
    ensures Inv(t, now) && s.issued <= t.issued && s.counter <= t.counter
    ensures forall i :: |s.issued| <= i < |t.issued| ==> t.issued[i] > s.counter
  {
  }

  lemma {:induction false} RunKeepsInv(s: Clocks, done: seq<Event>, todo: seq<Event>, t: Clocks)
    requires Inv(s, Highest(done)) && Run(s, todo) == Some(t)
    ensures Inv(t, Highest(done + todo)) && s.issued <= t.issued && s.counter <= t.counter
    ensures forall i :: |s.issued| <= i < |t.issued| ==> t.issued[i] > s.counter
    decreases |todo|
  {
    hide Inv, Step;
    if todo == [] {
      assert done + todo == done;
    } else {
      var e, next := todo[0], Step(s, todo[0]).value;
      assert (done + [e])[..|done|] == done;
      StepKeepsInv(s, e, next, Highest(done), Highest(done + [e]));
      RunKeepsInv(next, done + [e], todo[1..], t);
      assert (done + [e]) + todo[1..] == done + todo;
    }
  }

  /** Timestamps are distinct and strictly increasing in the order of their swaps, whatever the interleaving. */
  lemma StrictlyIncreasing(events: seq<Event>, s: Clocks)
    requires Run(Init(), events) == Some(s)
    ensures forall i, j :: 0 <= i < j < |s.issued| ==> s.issued[i] < s.issued[j]
  {
    RunKeepsInv(Init(), [], events, s);
  }

  /** The counter runs ahead of the clocks and of what was synchronized by no more than the timestamps issued. */
  lemma CounterBound(events: seq<Event>, s: Clocks)
    requires Run(Init(), events) == Some(s)
    ensures s.counter <= Highest(events) + |s.issued|
    ensures forall i :: 0 <= i < |s.issued| ==> s.issued[i] <= Highest(events) + |s.issued|
  {
    RunKeepsInv(Init(), [], events, s);
    assert [] + events == events;
  }

  /** Every timestamp issued after a `sync` is past the synchronized one, even from a `now` that had begun before. */
  lemma NowAfterSync(before: seq<Event>, timestamp: nat, after: seq<Event>, s: Clocks, t: Clocks)
    requires Run(Init(), before + [Sync(timestamp)]) == Some(s) && Run(s, after) == Some(t)
    ensures s.issued <= t.issued
    ensures forall i :: |s.issued| <= i < |t.issued| ==> t.issued[i] > timestamp
  {
    var events := before + [Sync(timestamp)];
    RunKeepsInv(Init(), [], events, s);
    assert [] + events == events;
    RunKeepsInv(s, events, after, t);
    SyncRaises(Init(), before, timestamp, s);
  }

  lemma {:induction false} SyncRaises(s: Clocks, before: seq<Event>, timestamp: nat, t: Clocks)
    requires Run(s, before + [Sync(timestamp)]) == Some(t)
    ensures t.counter >= timestamp
    decreases |before|
  {
    if before == [] {
      assert before + [Sync(timestamp)] == [Sync(timestamp)] && [Sync(timestamp)][1..] == [];
    } else {
      assert (before + [Sync(timestamp)])[1..] == before[1..] + [Sync(timestamp)];
      SyncRaises(Step(s, before[0]).value, before[1..], timestamp, t);
    }
  }

  /** The step changes the counter: a swap that succeeds, or a `sync` past the counter. */
  predicate Moves(s: Clocks, e: Event) {
    Step(s, e).Some? && Step(s, e).value.counter != s.counter
  }

  /** The state after the first `i` events. */
  function After(s: Clocks, events: seq<Event>, i: nat): Clocks
    requires i <= |events| && Run(s, events).Some?
    decreases |events|
  {
    if i == 0 then s else After(Step(s, events[0]).value, events[1..], i - 1)
  }

  lemma {:induction false} SomethingMoves(s: Clocks, events: seq<Event>, t: Clocks) returns (i: nat)
    requires Run(s, events) == Some(t) && t.counter != s.counter
    ensures i < |events| && Moves(After(s, events, i), events[i])
    decreases |events|
  {
    var next := Step(s, events[0]).value;
    if next.counter != s.counter {
      i := 0;
    } else {
      var j := SomethingMoves(next, events[1..], t);
      i := j + 1;
    }
  }

  /** A thread that does not load again has not swapped in between. */
  lemma {:induction false} StillComputed(s: Clocks, x: nat, events: seq<Event>, t: Clocks)
    requires Run(s, events) == Some(t) && Load(x) !in events && x in t.threads
    ensures x in s.threads && Swap(x) !in events && s.threads[x].latest == t.threads[x].latest
    decreases |events|
  {
    if events != [] {
      assert forall e :: e in events ==> e == events[0] || e in events[1..];
      StillComputed(Step(s, events[0]).value, x, events[1..], t);
    }
  }

  /**
    * The loop is lock-free: when the swap of a thread fails, because the counter is not what it loaded, then
    * since its load another thread's swap succeeded or a `sync` raised the counter.
    */
  lemma FailedSwap(s: Clocks, x: nat, events: seq<Event>, t: Clocks) returns (i: nat)
    requires x !in s.threads && Run(s, [Load(x)] + events) == Some(t) && Load(x) !in events
    requires x in t.threads && t.threads[x].Computed? && t.counter != t.threads[x].latest
    ensures i < |events| && events[i] != Swap(x) && (events[i].Swap? || events[i].Sync?)
    ensures Run(Step(s, Load(x)).value, events).Some? && Moves(After(Step(s, Load(x)).value, events, i), events[i])
  {
    var loaded := Step(s, Load(x)).value;
    assert ([Load(x)] + events)[1..] == events;
    StillComputed(loaded, x, events, t);
    i := SomethingMoves(loaded, events, t);
  }

  /** Without interference, `now` takes one turn of its loop. */
  lemma Uncontended(s: Clocks, x: nat, millis: nat)
    requires x !in s.threads
    ensures Run(s, [Load(x), ReadClock(x, millis), Swap(x)])
            == Some(Clocks(Tick(millis, s.counter), s.threads, s.issued + [Tick(millis, s.counter)]))
  {
    var next := Tick(millis, s.counter);
    var s1 := s.(threads := s.threads[x := Loaded(s.counter)]);
    var s2 := s.(threads := s.threads[x := Computed(s.counter, next)]);
    var t := Clocks(next, s.threads, s.issued + [next]);
    assert s1.threads[x := Computed(s.counter, next)] == s2.threads;
    assert s2.threads - {x} == s.threads;
    assert [Load(x), ReadClock(x, millis), Swap(x)][1..] == [ReadClock(x, millis), Swap(x)];
    assert [ReadClock(x, millis), Swap(x)][1..] == [Swap(x)] && [Swap(x)][1..] == [];
    assert Run(s2, [Swap(x)]) == Some(t);
    assert Run(s1, [ReadClock(x, millis), Swap(x)]) == Some(t);
  }

  /**
    * Readings of the clock within one window of 256 ms count alike, and a timestamp is behind its reading by less
    * than a window, unless the counter is ahead.
    */
  lemma Window(m: nat, n: nat, latest: nat)
    ensures m / 256 == n / 256 ==> Tick(m, latest) == Tick(n, latest)
    ensures m / 256 < n / 256 ==> Tick(m, 0) < Tick(n, 0)
    ensures (n / 256) * 256 == n ==> Tick(n, 0) == n + 1
    ensures m - 256 < Tick(m, 0) <= m + 1
  {
  }
}
