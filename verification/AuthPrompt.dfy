/**
 * mobile/src/authPrompt.ts: when the system's own authentication prompt was up, kept as a few spans
 * of time, and mobile/src/logic/appLock.ts: the time away that app lock computes from them.
 *
 * Times are whole milliseconds, as `Date.now()` gives them. A span holds its start and not its end.
 */
module AuthPrompt {
  import opened Wrappers

  datatype Span = Span(start: int, end: Option<int>)

  datatype Event = Begin(now: int) | End(now: int)

  /** `closedAt` is None for negative infinity. */
  datatype State = State(open: nat, closedAt: Option<int>, spans: seq<Span>)

  const KEPT_SPANS := 16
  const AUTH_PROMPT_GRACE_MS := 1000

  function Min(a: int, b: int): int { if a < b then a else b }
  function Max(a: int, b: int): int { if a < b then b else a }

  /** The last span, if it is still open, ends now. */
  function CloseLast(spans: seq<Span>, now: int): seq<Span> {
    if spans != [] && spans[|spans| - 1].end.None?
    then spans[|spans| - 1 := Span(spans[|spans| - 1].start, Some(now))]
    else spans
  }

  function Shifted(spans: seq<Span>): seq<Span> {
    if |spans| > KEPT_SPANS then spans[1..] else spans
  }

  function Next(s: State, e: Event): State {
    match e
    case Begin(now) =>
      State(s.open + 1, s.closedAt, if s.open == 0 then Shifted(s.spans + [Span(now, None)]) else s.spans)
    case End(now) =>
      State(Max(0, s.open - 1), Some(now), if s.open <= 1 then CloseLast(s.spans, now) else s.spans)
  }

  /** The module: its three variables, changed in place. */
  class Prompts {
    var open: nat
    var closedAt: Option<int>
    var spans: seq<Span>

    ghost function Abstract(): State
      reads this
    {
      State(open, closedAt, spans)
    }

    constructor ()
      ensures Abstract() == Initial()
    {
      open, closedAt, spans := 0, None, [];
    }

    method BeginAuthPrompt(now: int)
      modifies this
      ensures Abstract() == Next(old(Abstract()), Begin(now))
    {
      if open == 0 {
        spans := spans + [Span(now, None)];
        if |spans| > KEPT_SPANS {
          spans := spans[1..];
        }
      }
      open := open + 1;
    }

    method EndAuthPrompt(now: int)
      modifies this
      ensures Abstract() == Next(old(Abstract()), End(now))
    {
      open := Max(0, open - 1);
      closedAt := Some(now);
      if open == 0 && |spans| > 0 {
        var last := spans[|spans| - 1];
        if last.end.None? {
          spans := spans[|spans| - 1 := last.(end := Some(now))];
        }
      }
    }

    method AuthPromptInFlight(now: int) returns (r: bool)
      ensures r == InFlight(Abstract(), now)
    {
      r := open > 0 || (closedAt.Some? && now - closedAt.value < AUTH_PROMPT_GRACE_MS);
    }
  }

  predicate InFlight(s: State, now: int) {
    s.open > 0 || (s.closedAt.Some? && now - s.closedAt.value < AUTH_PROMPT_GRACE_MS)
  }

  function Initial(): State { State(0, None, []) }

  // ---------------------------------------------------------------- what happened

  function Run(events: seq<Event>): State {
    if events == [] then Initial() else Next(Run(events[..|events| - 1]), events[|events| - 1])
  }

  predicate Clock(events: seq<Event>) {
    forall i, j :: 0 <= i < j < |events| ==> events[i].now <= events[j].now
  }

  /** How many prompts are up after these events; an end with none up changes nothing. */
  function Depth(events: seq<Event>): nat {
    if events == [] then 0
    else
      var before := Depth(events[..|events| - 1]);
      match events[|events| - 1]
      case Begin(_) => before + 1
      case End(_) => if before == 0 then 0 else before - 1
  }

  /** The events up to and including moment t. */
  function Until(events: seq<Event>, t: int): seq<Event> {
    if events == [] || events[|events| - 1].now <= t then events else Until(events[..|events| - 1], t)
  }

  predicate Up(events: seq<Event>, t: int) {
    Depth(Until(events, t)) > 0
  }

  /** Every span there ever was, none dropped. */
  function Spans(events: seq<Event>): seq<Span> {
    if events == [] then []
    else
      var before := events[..|events| - 1];
      match events[|events| - 1]
      case Begin(now) => if Depth(before) == 0 then Spans(before) + [Span(now, None)] else Spans(before)
      case End(now) => if Depth(before) == 1 then CloseLast(Spans(before), now) else Spans(before)
  }

  predicate In(span: Span, t: int) {
    span.start <= t && (span.end.Some? ==> t < span.end.value)
  }

  predicate Covered(spans: seq<Span>, t: int) {
    exists i :: 0 <= i < |spans| && In(spans[i], t)
  }

  /** Sorted, disjoint, and only the last may be open. */
  predicate Orderly(spans: seq<Span>) {
    && (forall i :: 0 <= i < |spans| ==> Forward(spans[i]))
    && (forall i, j :: 0 <= i < j < |spans| ==> EndsBefore(spans[i], spans[j]))
  }

  predicate Forward(span: Span) {
    span.end.Some? ==> span.start <= span.end.value
  }

  predicate EndsBefore(a: Span, b: Span) {
    a.end.Some? && a.end.value <= b.start
  }

  predicate StartedBy(spans: seq<Span>, now: int) {
    forall i :: 0 <= i < |spans| ==>
      spans[i].start <= now && (spans[i].end.Some? ==> spans[i].end.value <= now)
  }

  /** The last span is open exactly while a prompt is up. */
  predicate OpenIff(spans: seq<Span>, up: bool) {
    (spans != [] && spans[|spans| - 1].end.None?) == up
  }

  // ---------------------------------------------------------------- the full history

  lemma {:induction false} HistoryIsOrderly(events: seq<Event>)
    requires Clock(events)
    ensures Orderly(Spans(events)) && OpenIff(Spans(events), Depth(events) > 0)
    ensures events != [] ==> StartedBy(Spans(events), events[|events| - 1].now)
  {
    if events != [] {
      var before := events[..|events| - 1];
      HistoryIsOrderly(before);
      if before == [] {
        assert Spans(before) == [];
      } else {
        assert before[|before| - 1] == events[|events| - 2];
      }
    }
  }

  /** In the whole history a moment lies in a span exactly when a prompt was up then. */
  lemma {:induction false} HistoryIsExact(events: seq<Event>, t: int)
    requires Clock(events)
    ensures Covered(Spans(events), t) <==> Up(events, t)
  {
    if events != [] {
      var before, last := events[..|events| - 1], events[|events| - 1];
      var spans := Spans(events);
      if last.now <= t {
        HistoryIsOrderly(events);
        if Depth(events) > 0 {
          assert In(spans[|spans| - 1], t);
        }
      } else {
        HistoryIsExact(before, t);
        HistoryIsOrderly(before);
        SameBefore(Spans(before), spans, last.now, t);
      }
    }
  }

  /** Starting or closing a span now changes nothing about earlier moments. */
  lemma SameBefore(was: seq<Span>, spans: seq<Span>, now: int, t: int)
    requires spans == was || spans == was + [Span(now, None)] || spans == CloseLast(was, now)
    requires t < now
    ensures Covered(spans, t) <==> Covered(was, t)
  {
    if Covered(was, t) {
      var i :| 0 <= i < |was| && In(was[i], t);
      assert In(spans[i], t);
    }
    if Covered(spans, t) {
      var i :| 0 <= i < |spans| && In(spans[i], t);
      assert i < |was| && In(was[i], t);
    }
  }

  // ---------------------------------------------------------------- what is kept

  /** The newest sixteen. */
  function Kept(spans: seq<Span>): seq<Span> {
    if |spans| > 16 then spans[|spans| - 16..] else spans
  }

  lemma NothingToClose(spans: seq<Span>, up: bool, now: int)
    requires OpenIff(spans, up)
    ensures !up ==> CloseLast(spans, now) == spans
  {
  }

  lemma KeptOfNone()
    ensures Kept([]) == []
  {
  }

  lemma KeptAfterPush(spans: seq<Span>, span: Span)
    ensures Shifted(Kept(spans) + [span]) == Kept(spans + [span])
  {
  }

  lemma KeptAfterClose(spans: seq<Span>, now: int)
    ensures CloseLast(Kept(spans), now) == Kept(CloseLast(spans, now))
  {
  }

  /** The module holds the depth, and the newest sixteen spans of the history. */
  lemma {:induction false} RunKeepsTheNewest(events: seq<Event>)
    requires Clock(events)
    ensures Run(events).open == Depth(events)
    ensures Run(events).spans == Kept(Spans(events))
  {
    hide Orderly, Kept, Shifted, CloseLast, StartedBy;
    if events == [] {
      KeptOfNone();
    } else {
      var before, now := events[..|events| - 1], events[|events| - 1].now;
      RunKeepsTheNewest(before);
      HistoryIsOrderly(before);
      KeptAfterPush(Spans(before), Span(now, None));
      KeptAfterClose(Spans(before), now);
      NothingToClose(Spans(before), Depth(before) > 0, now);
    }
  }

  lemma EarlierEnds(spans: seq<Span>, i: nat, j: nat)
    requires Orderly(spans) && i < |spans|
    ensures i < j < |spans| ==> EndsBefore(spans[i], spans[j])
  {
  }

  lemma KeptAt(spans: seq<Span>, i: nat)
    ensures |Kept(spans)| == Min(|spans|, 16)
    ensures i < |Kept(spans)| ==> Kept(spans)[i] == spans[|spans| - |Kept(spans)| + i]
  {
  }

  lemma KeptIsOrderly(spans: seq<Span>)
    requires Orderly(spans)
    ensures Orderly(Kept(spans))
  {
    hide Kept;
    var kept := Kept(spans);
    var dropped := |spans| - |kept|;
    KeptAt(spans, 0);
    forall i | 0 <= i < |kept| ensures Forward(kept[i]) {
      KeptAt(spans, i);
    }
    forall i, j | 0 <= i < j < |kept| ensures EndsBefore(kept[i], kept[j]) {
      KeptAt(spans, i);
      KeptAt(spans, j);
      EarlierEnds(spans, dropped + i, dropped + j);
    }
  }

  /** Over every run the kept spans are sorted and disjoint, and only the last may be open. */
  lemma KeptSpansAreOrderly(events: seq<Event>)
    requires Clock(events)
    ensures Orderly(Run(events).spans) && |Run(events).spans| <= 16
    ensures OpenIff(Run(events).spans, Depth(events) > 0)
  {
    HistoryIsOrderly(events);
    RunKeepsTheNewest(events);
    KeptIsOrderly(Spans(events));
  }

  /** Dropped spans ended before the oldest kept one began. */
  lemma KeptCovers(spans: seq<Span>, t: int)
    requires Orderly(spans) && (Kept(spans) != [] ==> Kept(spans)[0].start <= t)
    ensures Covered(Kept(spans), t) <==> Covered(spans, t)
  {
    hide Kept;
    var kept := Kept(spans);
    KeptAt(spans, 0);
    var dropped := |spans| - |kept|;
    if Covered(spans, t) {
      var i :| 0 <= i < |spans| && In(spans[i], t);
      EarlierEnds(spans, i, dropped);
      assert i >= dropped;
      KeptAt(spans, i - dropped);
      assert In(kept[i - dropped], t);
    }
    if Covered(kept, t) {
      var i :| 0 <= i < |kept| && In(kept[i], t);
      KeptAt(spans, i);
      assert In(spans[dropped + i], t);
    }
  }

  /**
   * Since the oldest kept span began, a moment lies in a kept span exactly when a prompt was up, and
   * then in one only.
   */
  lemma KeptSpansAreExact(events: seq<Event>, t: int)
    requires Clock(events)
    requires Run(events).spans != [] ==> Run(events).spans[0].start <= t
    ensures Covered(Run(events).spans, t) <==> Up(events, t)
    ensures forall i, j :: 0 <= i < j < |Run(events).spans| ==>
      !(In(Run(events).spans[i], t) && In(Run(events).spans[j], t))
  {
    HistoryIsOrderly(events);
    RunKeepsTheNewest(events);
    KeptIsOrderly(Spans(events));
    KeptCovers(Spans(events), t);
    HistoryIsExact(events, t);
  }

  // ---------------------------------------------------------------- the second of grace

  /** A change of the app's state is ignored while a prompt is up and for a second after any end. */
  lemma {:induction false} InFlightIsExact(events: seq<Event>, now: int)
    requires Clock(events)
    ensures InFlight(Run(events), now) <==>
      Depth(events) > 0 || exists i :: 0 <= i < |events| && events[i].End? && now - events[i].now < 1000
  {
    RunKeepsTheNewest(events);
    LastEnd(events);
  }

  lemma {:induction false} LastEnd(events: seq<Event>)
    requires Clock(events)
    ensures forall i :: 0 <= i < |events| && events[i].End? ==>
      Run(events).closedAt.Some? && events[i].now <= Run(events).closedAt.value
    ensures Run(events).closedAt.Some? ==>
      exists i :: 0 <= i < |events| && events[i] == End(Run(events).closedAt.value)
  {
    if events != [] {
      var before, last := events[..|events| - 1], events[|events| - 1];
      LastEnd(before);
      assert events == before + [last];
      if last.End? {
        assert events[|events| - 1] == End(Run(events).closedAt.value);
      }
    }
  }

  /** An end within the last second, and one that closed a prompt. */
  predicate RecentEnd(events: seq<Event>, i: nat, now: int)
    requires i < |events|
  {
    events[i].End? && now - events[i].now < 1000
  }

  predicate ClosesOne(events: seq<Event>, i: nat)
    requires i < |events|
  {
    events[i].End? && Depth(events[..i]) > 0
  }

  /** What the comment promises: while a prompt is up, and for a second after the last one closed. */
  predicate Promised(events: seq<Event>, now: int) {
    Depth(events) > 0 || exists i :: 0 <= i < |events| && RecentEnd(events, i, now) && ClosesOne(events, i)
  }

  /** Changes are never let through before the promise; held off beyond it exactly when only unmatched ends are recent. */
  lemma PromiseKeptExactly(events: seq<Event>, now: int)
    requires Clock(events)
    ensures Promised(events, now) ==> InFlight(Run(events), now)
    ensures InFlight(Run(events), now) != Promised(events, now)
            <==> && Depth(events) == 0 && (exists i :: 0 <= i < |events| && RecentEnd(events, i, now))
                 && forall i :: 0 <= i < |events| && RecentEnd(events, i, now) ==> !ClosesOne(events, i)
  {
    hide Run, Clock, Depth;
    InFlightIsExact(events, now);
    if i :| 0 <= i < |events| && events[i].End? && now - events[i].now < 1000 {
      assert RecentEnd(events, i, now);
    }
  }

  /** An end that closes no prompt holds changes off too: no prompt was up at all here. */
  lemma UnmatchedEndHoldsOff(now: int)
    ensures Depth([End(now)]) == 0 && !Up([End(now)], now) && InFlight(Run([End(now)]), now)
  {
    assert [End(now)][..0] == [];
    assert Until([End(now)], now) == [End(now)];
  }

  // ---------------------------------------------------------------- time away

  /** How much of a span falls between two moments; an open one runs to the second. */
  function Overlap(span: Span, from: int, until: int): nat {
    var start := Max(span.start, from);
    var end := Min(if span.end.Some? then span.end.value else until, until);
    if end > start then end - start else 0
  }

  function Overlaps(spans: seq<Span>, from: int, until: int): nat {
    if spans == [] then 0
    else Overlaps(spans[..|spans| - 1], from, until) + Overlap(spans[|spans| - 1], from, until)
  }

  function Away(from: int, until: int, spans: seq<Span>): int {
    Max(0, until - from - Overlaps(spans, from, until))
  }

  method AwayTime(from: int, until: int, spans: seq<Span>) returns (away: int)
    ensures away == Away(from, until, spans)
  {
    var inPrompt := 0;
    for i := 0 to |spans|
      invariant inPrompt == Overlaps(spans[..i], from, until)
    {
      assert spans[..i + 1][..i] == spans[..i];
      var span := spans[i];
      var start := Max(span.start, from);
      var end := Min(if span.end.Some? then span.end.value else until, until);
      if end > start {
        inPrompt := inPrompt + (end - start);
      }
    }
    assert spans[..|spans|] == spans;
    away := Max(0, until - from - inPrompt);
  }

  /** The milliseconds of a stretch of time at which no prompt was up. */
  function Quiet(events: seq<Event>, from: int, until: int): nat
    decreases until - from
  {
    if until <= from then 0 else Quiet(events, from, until - 1) + if Up(events, until - 1) then 0 else 1
  }

  lemma OverlapGrows(span: Span, from: int, until: int)
    requires from < until && Forward(span)
    ensures Overlap(span, from, until) == Overlap(span, from, until - 1) + if In(span, until - 1) then 1 else 0
  {
  }

  /** One more millisecond adds one exactly when it lies in a span. */
  lemma {:induction false} OverlapsGrow(spans: seq<Span>, from: int, until: int)
    requires Orderly(spans) && from < until
    ensures Overlaps(spans, from, until) == Overlaps(spans, from, until - 1) + if Covered(spans, until - 1) then 1 else 0
  {
    if spans != [] {
      var before, last := spans[..|spans| - 1], spans[|spans| - 1];
      OverlapsGrow(before, from, until);
      OverlapGrows(last, from, until);
      if Covered(before, until - 1) {
        var i :| 0 <= i < |before| && In(before[i], until - 1);
        assert In(spans[i], until - 1);
        assert EndsBefore(spans[i], last);
      }
      if In(last, until - 1) {
        assert In(spans[|spans| - 1], until - 1);
      }
      if Covered(spans, until - 1) && !In(last, until - 1) {
        var i :| 0 <= i < |spans| && In(spans[i], until - 1);
        assert In(before[i], until - 1);
      }
    }
  }

  lemma {:induction false} NothingBeforeTheStart(spans: seq<Span>, from: int)
    ensures Overlaps(spans, from, from) == 0
  {
    if spans != [] {
      NothingBeforeTheStart(spans[..|spans| - 1], from);
    }
  }

  /** Over the whole history the time outside all spans is exactly the time no prompt was up. */
  lemma {:induction false} HistoryAway(events: seq<Event>, from: int, until: int)
    requires Clock(events) && from <= until
    ensures until - from - Overlaps(Spans(events), from, until) == Quiet(events, from, until)
    decreases until - from
  {
    if from == until {
      NothingBeforeTheStart(Spans(events), from);
    } else {
      HistoryAway(events, from, until - 1);
      HistoryIsOrderly(events);
      OverlapsGrow(Spans(events), from, until);
      HistoryIsExact(events, until - 1);
    }
  }

  lemma {:induction false} OverlapsAppend(a: seq<Span>, b: seq<Span>, from: int, until: int)
    ensures Overlaps(a + b, from, until) == Overlaps(a, from, until) + Overlaps(b, from, until)
  {
    if b == [] {
      assert a + b == a;
    } else {
      assert (a + b)[..|a + b| - 1] == a + b[..|b| - 1];
      OverlapsAppend(a, b[..|b| - 1], from, until);
    }
  }

  /** The spans no longer kept. */
  function Dropped(events: seq<Event>): seq<Span> {
    var spans := Spans(events);
    if |spans| > 16 then spans[..|spans| - 16] else []
  }

  /** A prompt that was up for some time of the stretch. */
  predicate Touches(span: Span, from: int, until: int) {
    && from < until && span.start < until
    && (span.end.Some? ==> from < span.end.value && span.start < span.end.value)
  }

  lemma {:induction false} NothingTouched(spans: seq<Span>, from: int, until: int)
    ensures Overlaps(spans, from, until) == 0 <==> forall i :: 0 <= i < |spans| ==> !Touches(spans[i], from, until)
  {
    if spans != [] {
      var before := spans[..|spans| - 1];
      NothingTouched(before, from, until);
      assert spans == before + [spans[|spans| - 1]];
      assert Overlap(spans[|spans| - 1], from, until) == 0 <==> !Touches(spans[|spans| - 1], from, until);
    }
  }

  /**
   * App lock's time away is the milliseconds no prompt was up, and exactly as much more as the prompts
   * whose spans were dropped were up in between. So it is exact if and only if no dropped prompt was.
   */
  lemma AwayTimeIsExact(events: seq<Event>, from: int, until: int)
    requires Clock(events) && from <= until
    ensures Away(from, until, Run(events).spans) == Quiet(events, from, until) + Overlaps(Dropped(events), from, until)
    ensures Away(from, until, Run(events).spans) == Quiet(events, from, until)
            <==> forall i :: 0 <= i < |Dropped(events)| ==> !Touches(Dropped(events)[i], from, until)
  {
    hide Orderly, Touches, Overlap;
    RunKeepsTheNewest(events);
    HistoryAway(events, from, until);
    assert Spans(events) == Dropped(events) + Run(events).spans;
    OverlapsAppend(Dropped(events), Run(events).spans, from, until);
    NothingTouched(Dropped(events), from, until);
  }

  /** What a caller can see: fewer than sixteen spans, or the oldest of them no later than the leaving. */
  lemma AwayTimeIsExactWhenSeen(events: seq<Event>, from: int, until: int)
    requires Clock(events) && from <= until
    requires |Run(events).spans| < 16 || Run(events).spans[0].start <= from
    ensures Away(from, until, Run(events).spans) == Quiet(events, from, until)
  {
    AwayTimeIsExact(events, from, until);
    RunKeepsTheNewest(events);
    HistoryIsOrderly(events);
    var spans, dropped := Spans(events), Dropped(events);
    forall i | 0 <= i < |dropped| ensures !Touches(dropped[i], from, until) {
      EarlierEnds(spans, i, |dropped|);
      assert dropped[i] == spans[i] && spans[|dropped|] == Run(events).spans[0];
    }
  }

  // ---------------------------------------------------------------- a stretch with too many prompts

  /** n prompts of a millisecond each, a millisecond apart. */
  function Prompted(n: nat): seq<Event> {
    if n == 0 then [] else Prompted(n - 1) + [Begin(2 * n - 2), End(2 * n - 1)]
  }

  function Blinks(n: nat): seq<Span> {
    seq(n, k => Span(2 * k, Some(2 * k + 1)))
  }

  lemma {:induction false} PromptedHistory(n: nat)
    ensures Clock(Prompted(n)) && (forall i :: 0 <= i < |Prompted(n)| ==> Prompted(n)[i].now < 2 * n)
    ensures Depth(Prompted(n)) == 0 && Spans(Prompted(n)) == Blinks(n)
  {
    if n > 0 {
      PromptedHistory(n - 1);
      hide Depth, Spans;
      OnePrompt(Prompted(n - 1), 2 * n - 2, 2 * n - 1);
    } else {
      assert Prompted(0) == [];
    }
  }

  lemma OnePrompt(earlier: seq<Event>, a: int, b: int)
    requires Depth(earlier) == 0
    ensures var events := earlier + [Begin(a), End(b)];
            Depth(events) == 0 && Spans(events) == Spans(earlier) + [Span(a, Some(b))]
  {
    var begun, events := earlier + [Begin(a)], earlier + [Begin(a), End(b)];
    assert events[..|events| - 1] == begun && begun[..|begun| - 1] == earlier;
    assert Depth(begun) == 1;
    assert Spans(begun) == Spans(earlier) + [Span(a, None)];
  }

  lemma {:induction false} BlinksOverlap(n: nat, until: int)
    requires 2 * n <= until
    ensures Overlaps(Blinks(n), 0, until) == n
  {
    if n > 0 {
      BlinksOverlap(n - 1, until);
      assert Blinks(n)[..n - 1] == Blinks(n - 1);
    }
  }

  /** Seventeen prompts or more in one stretch away: every one after the sixteenth is a millisecond too many. */
  lemma TooManyPrompts(n: nat)
    requires n > 16
    ensures Clock(Prompted(n))
    ensures Away(0, 2 * n, Run(Prompted(n)).spans) == Quiet(Prompted(n), 0, 2 * n) + n - 16
  {
    hide Prompted, Depth, Spans, Run, Quiet, Away, Overlaps, Touches, Clock;
    PromptedHistory(n);
    AwayTimeIsExact(Prompted(n), 0, 2 * n);
    assert Dropped(Prompted(n)) == Blinks(n - 16);
    BlinksOverlap(n - 16, 2 * n);
  }
}
