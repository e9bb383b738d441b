/** The per-actor capture quota (apps/api/src/middleware/capture-quota.ts). */
module CaptureQuota {
  import opened Prelude

  datatype Entry = Entry(count: nat, windowStart: int)

  datatype Limits = Limits(maxCaptures: nat, windowMs: nat)

  datatype Event = Request(actor: string, now: int) | Sweep(now: int)

  type Table = map<string, Entry>

  // ---------- one request, one sweep ----------

  function Lookup(t: Table, actor: string): Option<Entry> {
    if actor in t then Some(t[actor]) else None
  }

  predicate NewWindow(l: Limits, e: Option<Entry>, now: int) {
    e.None? || now - e.value.windowStart > l.windowMs
  }

  function Bumped(l: Limits, e: Option<Entry>, now: int): Entry {
    if NewWindow(l, e, now) then Entry(1, now) else e.value.(count := e.value.count + 1)
  }

  predicate Accepts(l: Limits, e: Option<Entry>, now: int) {
    NewWindow(l, e, now) || e.value.count < l.maxCaptures
  }

  predicate Expired(l: Limits, e: Entry, now: int) {
    now - e.windowStart > l.windowMs * 2
  }

  function Swept(l: Limits, t: Table, now: int): Table {
    map k | k in t && !Expired(l, t[k], now) :: t[k]
  }

  function After(l: Limits, t: Table, ev: Event): Table {
    match ev
    case Request(actor, now) => t[actor := Bumped(l, Lookup(t, actor), now)]
    case Sweep(now) => Swept(l, t, now)
  }

  function Run(l: Limits, events: seq<Event>): Table {
    if |events| == 0 then map[] else After(l, Run(l, Init(events)), Last(events))
  }

  // ---------- sweeps and other actors do not matter ----------

  /** One actor's entry had there been no sweeps and no other actors. */
  function Alone(l: Limits, events: seq<Event>, actor: string): Option<Entry> {
    if |events| == 0 then None
    else
      var e := Alone(l, Init(events), actor);
      match Last(events)
      case Request(a, now) => if a == actor then Some(Bumped(l, e, now)) else e
      case Sweep(_) => e
  }

  /** The clock does not go back. */
  ghost predicate Nondecreasing(events: seq<Event>) {
    forall i: nat, j: nat :: i <= j < |events| ==> events[i].now <= events[j].now
  }

  /** The table has the actor's own entry, or has lost one that every later request would replace. */
  predicate Agrees(l: Limits, found: Option<Entry>, own: Option<Entry>, now: int) {
    found == own || (found.None? && own.Some? && Expired(l, own.value, now))
  }

  lemma {:induction false} RunAgrees(l: Limits, events: seq<Event>, actor: string, now: int)
    requires Nondecreasing(events) && (|events| > 0 ==> Last(events).now <= now)
    ensures Agrees(l, Lookup(Run(l, events), actor), Alone(l, events, actor), now)
  {
    if |events| > 0 {
      RunAgrees(l, Init(events), actor, Last(events).now);
    }
  }

  /** When an actor asked. */
  function Asked(events: seq<Event>, actor: string): seq<int> {
    if |events| == 0 then []
    else
      match Last(events)
      case Request(a, now) => if a == actor then Asked(Init(events), actor) + [now] else Asked(Init(events), actor)
      case Sweep(_) => Asked(Init(events), actor)
  }

  function AloneOf(l: Limits, times: seq<int>): Option<Entry> {
    if |times| == 0 then None else Some(Bumped(l, AloneOf(l, Init(times)), Last(times)))
  }

  lemma {:induction false} AloneDependsOnTimes(l: Limits, events: seq<Event>, actor: string)
    ensures Alone(l, events, actor) == AloneOf(l, Asked(events, actor))
  {
    if |events| > 0 {
      AloneDependsOnTimes(l, Init(events), actor);
      var times := Asked(Init(events), actor);
      if Last(events).Request? && Last(events).actor == actor {
        assert Init(times + [Last(events).now]) == times;
      }
    }
  }

  /**
   * With a clock that does not go back, a decision depends only on when the actor itself asked:
   * neither the cleanup sweeps nor the other actors can change it.
   */
  lemma OnlyOwnRequestsDecide(l: Limits, events: seq<Event>, others: seq<Event>, actor: string, now: int)
    requires Nondecreasing(events) && (|events| > 0 ==> Last(events).now <= now)
    requires Nondecreasing(others) && (|others| > 0 ==> Last(others).now <= now)
    requires Asked(events, actor) == Asked(others, actor)
    ensures Accepts(l, Lookup(Run(l, events), actor), now) == Accepts(l, Lookup(Run(l, others), actor), now)
  {
    RunAgrees(l, events, actor, now);
    RunAgrees(l, others, actor, now);
    AloneDependsOnTimes(l, events, actor);
    AloneDependsOnTimes(l, others, actor);
  }

  // ---------- the bound ----------

  /** How many of an actor's requests between lo and hi, both included, were accepted. */
  function Accepted(l: Limits, events: seq<Event>, actor: string, lo: int, hi: int): nat {
    if |events| == 0 then 0
    else
      var before := Accepted(l, Init(events), actor, lo, hi);
      match Last(events)
      case Request(a, now) =>
        if a == actor && lo <= now <= hi && Accepts(l, Lookup(Run(l, Init(events)), actor), now) then before + 1 else before
      case Sweep(_) => before
  }

  /** The same for a lone actor's request times, from lo on. */
  function AcceptedFrom(l: Limits, times: seq<int>, lo: int): nat {
    if |times| == 0 then 0
    else
      var before := AcceptedFrom(l, Init(times), lo);
      if lo <= Last(times) && Accepts(l, AloneOf(l, Init(times)), Last(times)) then before + 1 else before
  }

  /** How many windows were left behind once something was accepted at or after lo. */
  function WindowsLeft(l: Limits, times: seq<int>, lo: int): nat {
    if |times| == 0 then 0
    else
      var before := WindowsLeft(l, Init(times), lo);
      if NewWindow(l, AloneOf(l, Init(times)), Last(times)) && AcceptedFrom(l, Init(times), lo) > 0 then before + 1 else before
  }

  ghost predicate Rising(times: seq<int>) {
    forall i: nat, j: nat :: i <= j < |times| ==> times[i] <= times[j]
  }

  function InWindow(l: Limits, e: Entry): nat {
    if e.count < l.maxCaptures then e.count else l.maxCaptures
  }

  /** Everything accepted from lo on: full windows left behind, and the current one. */
  ghost predicate Bounded(l: Limits, times: seq<int>, lo: int) {
    var a, j, e := AcceptedFrom(l, times, lo), WindowsLeft(l, times, lo), AloneOf(l, times);
    (e.None? ==> a == 0 && j == 0) &&
    (e.Some? ==>
      a <= j * l.maxCaptures + InWindow(l, e.value) &&
      (a > 0 ==> e.value.windowStart + l.windowMs >= lo) &&
      (a == 0 ==> j == 0) &&
      (j > 0 ==> e.value.windowStart > lo + (j - 1) * l.windowMs) &&
      e.value.windowStart <= Last(times))
  }

  lemma Distribute(j: nat, m: nat)
    ensures (j + 1) * m == j * m + m
  {
  }

  /** A request inside the current window. */
  lemma BoundedSameWindow(l: Limits, times: seq<int>, lo: int)
    requires |times| > 0 && Rising(times) && Bounded(l, Init(times), lo)
    requires !NewWindow(l, AloneOf(l, Init(times)), Last(times))
    ensures Bounded(l, times, lo)
  {
    var n := |times| - 1;
    assert |Init(times)| > 0 && Last(Init(times)) == times[n - 1] <= times[n];
  }

  /** A request that opens a window: it starts more than one window length after the one it replaces. */
  lemma BoundedNewWindow(l: Limits, times: seq<int>, lo: int)
    requires |times| > 0 && Rising(times) && Bounded(l, Init(times), lo) && l.maxCaptures > 0
    requires NewWindow(l, AloneOf(l, Init(times)), Last(times))
    ensures Bounded(l, times, lo)
  {
    var j := WindowsLeft(l, Init(times), lo);
    Distribute(j, l.maxCaptures);
    if j > 0 {
      Distribute(j - 1, l.windowMs);
    }
  }

  lemma {:induction false} AlwaysBounded(l: Limits, times: seq<int>, lo: int)
    requires Rising(times) && l.maxCaptures > 0
    ensures Bounded(l, times, lo)
  {
    if |times| > 0 {
      AlwaysBounded(l, Init(times), lo);
      if NewWindow(l, AloneOf(l, Init(times)), Last(times)) {
        BoundedNewWindow(l, times, lo);
      } else {
        BoundedSameWindow(l, times, lo);
      }
    }
  }

  lemma MulMonotone(a: int, b: int, m: nat)
    requires a <= b
    ensures a * m <= b * m
  {
  }

  /** At most k windows can have been left behind within k window lengths. */
  lemma FewWindows(start: int, lo: int, j: nat, k: nat, w: nat)
    requires j > 0 ==> start > lo + (j - 1) * w
    requires start <= lo + k * w
    ensures j <= k
  {
    if j > k {
      MulMonotone(k, j - 1, w);
    }
  }

  lemma BoundForTimes(l: Limits, times: seq<int>, lo: int, k: nat)
    requires Rising(times) && l.maxCaptures > 0 && (|times| > 0 ==> Last(times) <= lo + k * l.windowMs)
    ensures AcceptedFrom(l, times, lo) <= (k + 1) * l.maxCaptures
  {
    AlwaysBounded(l, times, lo);
    var j, e := WindowsLeft(l, times, lo), AloneOf(l, times);
    Distribute(k, l.maxCaptures);
    if e.Some? {
      FewWindows(e.value.windowStart, lo, j, k, l.windowMs);
      MulMonotone(j, k, l.maxCaptures);
    } else {
      MulMonotone(0, k + 1, l.maxCaptures);
    }
  }

  lemma {:induction false} AskedRises(events: seq<Event>, actor: string)
    requires Nondecreasing(events)
    ensures Rising(Asked(events, actor))
    ensures forall t :: t in Asked(events, actor) ==> |events| > 0 && t <= Last(events).now
  {
    if |events| > 0 {
      AskedRises(Init(events), actor);
      var times := Asked(Init(events), actor);
      if |events| > 1 {
        assert Last(Init(events)).now <= Last(events).now;
      }
      assert forall i: nat :: i < |times| ==> times[i] in times;
    }
  }

  /** Up to hi, the table's decisions are the lone actor's. */
  lemma {:induction false} AcceptedIsAlone(l: Limits, events: seq<Event>, actor: string, lo: int, hi: int)
    requires Nondecreasing(events) && (|events| > 0 ==> Last(events).now <= hi)
    ensures Accepted(l, events, actor, lo, hi) == AcceptedFrom(l, Asked(events, actor), lo)
  {
    if |events| > 0 {
      var before, ev := Init(events), Last(events);
      if |before| > 0 {
        assert Last(before).now <= ev.now;
      }
      AcceptedIsAlone(l, before, actor, lo, hi);
      RunAgrees(l, before, actor, ev.now);
      AloneDependsOnTimes(l, before, actor);
      if ev.Request? && ev.actor == actor {
        assert Init(Asked(before, actor) + [ev.now]) == Asked(before, actor);
      }
    }
  }

  lemma QuotaUpTo(l: Limits, events: seq<Event>, actor: string, lo: int, hi: int, k: nat)
    requires Nondecreasing(events) && l.maxCaptures > 0 && hi == lo + k * l.windowMs
    requires |events| > 0 ==> Last(events).now <= hi
    ensures Accepted(l, events, actor, lo, hi) <= (k + 1) * l.maxCaptures
  {
    var times := Asked(events, actor);
    AcceptedIsAlone(l, events, actor, lo, hi);
    AskedRises(events, actor);
    if |times| > 0 {
      assert Last(times) in times;
    }
    BoundForTimes(l, times, lo, k);
  }

  /**
   * The quota: with a clock that does not go back and a quota of at least one, an actor has at most
   * (k + 1) * maxCaptures accepted captures in any closed interval of length k * windowMs, whatever
   * the other actors and the sweeps do.
   */
  lemma {:induction false} QuotaHolds(l: Limits, events: seq<Event>, actor: string, lo: int, hi: int, k: nat)
    requires Nondecreasing(events) && l.maxCaptures > 0 && hi == lo + k * l.windowMs
    ensures Accepted(l, events, actor, lo, hi) <= (k + 1) * l.maxCaptures
  {
    if |events| > 0 && Last(events).now > hi {
      QuotaHolds(l, Init(events), actor, lo, hi, k);
    } else {
      QuotaUpTo(l, events, actor, lo, hi, k);
    }
  }

  // ---------- a refusal means a full quota ----------

  lemma {:induction false} AcceptedFromMonotone(l: Limits, times: seq<int>, lo: int, hi: int)
    requires lo <= hi
    ensures AcceptedFrom(l, times, hi) <= AcceptedFrom(l, times, lo)
  {
    if |times| > 0 {
      AcceptedFromMonotone(l, Init(times), lo, hi);
    }
  }

  /** The count of the current window is made of requests accepted in it, up to the quota. */
  lemma {:induction false} CountIsAccepted(l: Limits, times: seq<int>)
    requires |times| > 0 && Rising(times) && l.maxCaptures > 0
    ensures AcceptedFrom(l, times, AloneOf(l, times).value.windowStart) >= InWindow(l, AloneOf(l, times).value)
    ensures AloneOf(l, times).value.windowStart <= Last(times)
  {
    if !NewWindow(l, AloneOf(l, Init(times)), Last(times)) {
      CountIsAccepted(l, Init(times));
      assert |Init(times)| > 0 && Last(Init(times)) == times[|times| - 2];
    }
  }

  /** A request is refused only if its actor has had at least maxCaptures accepted within the last window length. */
  lemma RefusedIsFull(l: Limits, events: seq<Event>, actor: string, now: int)
    requires Nondecreasing(events) && (|events| > 0 ==> Last(events).now <= now) && l.maxCaptures > 0
    requires !Accepts(l, Lookup(Run(l, events), actor), now)
    ensures Accepted(l, events, actor, now - l.windowMs, now) >= l.maxCaptures
  {
    var times := Asked(events, actor);
    RunAgrees(l, events, actor, now);
    AloneDependsOnTimes(l, events, actor);
    AcceptedIsAlone(l, events, actor, now - l.windowMs, now);
    AskedRises(events, actor);
    CountIsAccepted(l, times);
    AcceptedFromMonotone(l, times, now - l.windowMs, AloneOf(l, times).value.windowStart);
  }

  // ---------- the quota itself ----------

  /** What the hook was asked and answered; a sweep answers nobody. */
  datatype Answer = Answer(event: Event, accepted: bool)

  function Events(history: seq<Answer>): (r: seq<Event>)
    ensures |r| == |history| && forall i :: 0 <= i < |history| ==> r[i] == history[i].event
  {
    seq(|history|, i requires 0 <= i < |history| => history[i].event)
  }

  /** How many captures of an actor were answered with acceptance between two times, both included. */
  function AcceptedIn(history: seq<Answer>, actor: string, lo: int, hi: int): nat {
    if |history| == 0 then 0
    else
      var a := Last(history);
      AcceptedIn(Init(history), actor, lo, hi) +
      if a.event.Request? && a.accepted && a.event.actor == actor && lo <= a.event.now <= hi then 1 else 0
  }

  ghost predicate ClockNeverBack(history: seq<Answer>) {
    forall i: nat, j: nat :: i <= j < |history| ==> history[i].event.now <= history[j].event.now
  }

  /** The answers are those of the table at the time. */
  predicate Answered(l: Limits, history: seq<Answer>) {
    |history| == 0 ||
    (Answered(l, Init(history)) &&
     (Last(history).event.Request? ==>
       Last(history).accepted ==
       Accepts(l, Lookup(Run(l, Events(Init(history))), Last(history).event.actor), Last(history).event.now)))
  }

  lemma {:induction false} AnswersAreCounted(l: Limits, history: seq<Answer>, actor: string, lo: int, hi: int)
    requires Answered(l, history)
    ensures AcceptedIn(history, actor, lo, hi) == Accepted(l, Events(history), actor, lo, hi)
  {
    if |history| > 0 {
      AnswersAreCounted(l, Init(history), actor, lo, hi);
      assert Init(Events(history)) == Events(Init(history));
    }
  }

  /** At most (k + 1) * maxCaptures acceptances to one actor in any closed interval of k window lengths. */
  lemma AnswersWithinQuota(l: Limits, history: seq<Answer>, actor: string, lo: int, k: nat)
    requires Answered(l, history) && ClockNeverBack(history) && l.maxCaptures > 0
    ensures AcceptedIn(history, actor, lo, lo + k * l.windowMs) <= (k + 1) * l.maxCaptures
  {
    AnswersAreCounted(l, history, actor, lo, lo + k * l.windowMs);
    QuotaHolds(l, Events(history), actor, lo, lo + k * l.windowMs, k);
  }

  /**
   * Nobody is refused early: a refusal means that the same actor was answered with acceptance at least
   * maxCaptures times in the window length up to it.
   */
  lemma RefusalsAreEarned(l: Limits, history: seq<Answer>, i: nat)
    requires Answered(l, history) && ClockNeverBack(history) && l.maxCaptures > 0
    requires i < |history| && history[i].event.Request? && !history[i].accepted
    ensures var r := history[i].event;
            AcceptedIn(history[..i], r.actor, r.now - l.windowMs, r.now) >= l.maxCaptures
  {
    hide AcceptedIn, Run, Accepted, Accepts, Lookup, Events, ClockNeverBack, Nondecreasing;
    var r, before := history[i].event, history[..i];
    ClockOfPrefix(history, i);
    PrefixAnswered(l, history, i);
    PrefixAnswered(l, history, i + 1);
    assert Init(history[..i + 1]) == before && Last(history[..i + 1]) == history[i];
    AnswersAreCounted(l, before, r.actor, r.now - l.windowMs, r.now);
    RefusedIsFull(l, Events(before), r.actor, r.now);
  }

  lemma ClockOfPrefix(history: seq<Answer>, i: nat)
    requires ClockNeverBack(history) && i < |history|
    ensures Nondecreasing(Events(history[..i]))
    ensures i > 0 ==> Last(Events(history[..i])).now <= history[i].event.now
  {
  }

  lemma {:induction false} PrefixAnswered(l: Limits, history: seq<Answer>, n: nat)
    requires Answered(l, history) && n <= |history|
    ensures Answered(l, history[..n])
  {
    if n == |history| {
      assert history[..n] == history;
    } else {
      PrefixAnswered(l, Init(history), n);
      assert Init(history)[..n] == history[..n];
    }
  }

  /** A quota of zero still lets an actor's first capture of each window through. */
  lemma ZeroQuotaLetsOneThrough(windowMs: nat, actor: string, now: int)
    ensures Accepted(Limits(0, windowMs), [Request(actor, now)], actor, now, now) == 1
  {
    assert Init([Request(actor, now)]) == [];
  }

  lemma HistorySnoc(l: Limits, history: seq<Answer>, a: Answer)
    ensures Events(history + [a]) == Events(history) + [a.event]
    ensures Run(l, Events(history + [a])) == After(l, Run(l, Events(history)), a.event)
    ensures Answered(l, history + [a]) <==>
            Answered(l, history) &&
            (a.event.Request? ==> a.accepted == Accepts(l, Lookup(Run(l, Events(history)), a.event.actor), a.event.now))
  {
    assert Init(history + [a]) == history;
    assert Events(history + [a]) == Events(history) + [a.event];
    assert Init(Events(history) + [a.event]) == Events(history);
  }

  lemma SweptIs(l: Limits, t: Table, now: int, r: Table)
    requires forall k :: k in r <==> k in t && !Expired(l, t[k], now)
    requires forall k :: k in r ==> r[k] == t[k]
    ensures r == Swept(l, t, now)
  {
  }

  /** What the last request of a history tells. */
  lemma OneRequestMore(l: Limits, history: seq<Answer>, actor: string, now: int)
    requires Answered(l, history) && |history| > 0 && Last(history).event == Request(actor, now)
    requires l.maxCaptures > 0 && ClockNeverBack(history)
    ensures !Last(history).accepted ==> AcceptedIn(Init(history), actor, now - l.windowMs, now) >= l.maxCaptures
    ensures AcceptedIn(history, actor, now - l.windowMs, now) <= 2 * l.maxCaptures
  {
    hide Answered, AcceptedIn, ClockNeverBack;
    AnswersWithinQuota(l, history, actor, now - l.windowMs, 1);
    assert now - l.windowMs + 1 * l.windowMs == now;
    if !Last(history).accepted {
      RefusalsAreEarned(l, history, |history| - 1);
    }
  }

  class Quota {
    const limits: Limits
    var actors: Table
    ghost var history: seq<Answer>

    /** The table is what the history led to, and the answers were given by it. */
    ghost predicate Valid()
      reads this
    {
      actors == Run(limits, Events(history)) && Answered(limits, history)
    }

    constructor (limits: Limits)
      ensures this.limits == limits && actors == map[] && history == [] && Valid()
    {
      this.limits := limits;
      actors := map[];
      history := [];
    }

    /** False is a 429. A refused request is counted too. */
    method OnRequest(actor: string, now: int) returns (accepted: bool)
      requires Valid()
      modifies this
      ensures Valid() && history == old(history) + [Answer(Request(actor, now), accepted)]
      ensures actors == After(limits, old(actors), Request(actor, now))
      ensures limits.maxCaptures > 0 && ClockNeverBack(history) && !accepted ==>
                AcceptedIn(old(history), actor, now - limits.windowMs, now) >= limits.maxCaptures
      ensures limits.maxCaptures > 0 && ClockNeverBack(history) ==>
                AcceptedIn(history, actor, now - limits.windowMs, now) <= 2 * limits.maxCaptures
    {
      hide Run, Answered, Events, AcceptedIn, ClockNeverBack;
      if actor !in actors || now - actors[actor].windowStart > limits.windowMs {
        actors := actors[actor := Entry(1, now)];
        accepted := true;
      } else {
        var entry := actors[actor];
        entry := entry.(count := entry.count + 1);
        actors := actors[actor := entry];
        accepted := entry.count <= limits.maxCaptures;
      }
      history := history + [Answer(Request(actor, now), accepted)];
      HistorySnoc(limits, old(history), Answer(Request(actor, now), accepted));
      if limits.maxCaptures > 0 && ClockNeverBack(history) {
        OneRequestMore(limits, history, actor, now);
      }
    }

    /** The cleanup timer: deletes the expired entries one by one. */
    method Cleanup(now: int)
      requires Valid()
      modifies this
      ensures Valid() && history == old(history) + [Answer(Sweep(now), false)]
      ensures forall k :: k in actors <==> k in old(actors) && now - old(actors)[k].windowStart <= 2 * limits.windowMs
      ensures forall k :: k in actors ==> actors[k] == old(actors)[k]
    {
      hide Run, Answered, Events, Swept;
      var keys := actors.Keys;
      ghost var seen: set<string> := {};
      while keys != {}
        invariant history == old(history)
        invariant keys !! seen && keys + seen == old(actors).Keys
        invariant forall k :: k in actors <==> k in keys || (k in seen && !Expired(limits, old(actors)[k], now))
        invariant forall k :: k in actors ==> actors[k] == old(actors)[k]
        decreases |keys|
      {
        var key :| key in keys;
        keys := keys - {key};
        seen := seen + {key};
        if now - actors[key].windowStart > limits.windowMs * 2 {
          actors := actors - {key};
        }
      }
      SweptIs(limits, old(actors), now, actors);
      history := history + [Answer(Sweep(now), false)];
      HistorySnoc(limits, old(history), Answer(Sweep(now), false));
    }
  }
}
