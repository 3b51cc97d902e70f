/**
 * mobile/src/persist.ts: the cache file of list summaries, its saves, restores and wipes.
 *
 * An async function is its segments between awaits; nothing else runs inside a segment, and anything
 * may run between two. `Next` is one segment or one outside event as a function of the module's
 * state, and the class below is the module, its variables updated in place.
 */
module Persist {
  import opened Wrappers

  datatype Entry = Entry(data: string, at: int)

  /** What a save writes: when it was made, and the entries the allow-list lets through. */
  datatype Body = Body(savedAt: int, entries: seq<(string, Entry)>)

  /**
   * The sealed file: it opens only under its key and buster. `body` is None when its text is no body;
   * `started` records the generation of the save that wrote it.
   */
  datatype Sealed = Sealed(key: int, buster: string, body: Option<Body>, started: nat)

  const CACHE_MAX_AGE_MS := 7 * 24 * 60 * 60 * 1000

  /** What a subscription, and the timer it sets, hold on to. */
  datatype Saver = Saver(started: nat, buster: string)

  datatype Task =
    | SaveAwaitsStore(saver: Saver, body: Body)
    | SaveAwaitsKey(saver: Saver, body: Body)
    | RestoreAwaitsStore(started: nat, buster: string, until: int)
    | RestoreAwaitsText(started: nat, buster: string, until: int)
    | RestoreAwaitsKey(started: nat, buster: string, until: int, sealed: Sealed)
    | WipeAwaitsStore(wiped: nat)
    | WipeAwaitsDeletion(wiped: nat, removed: bool)
    | WipeEnded(wiped: nat, removed: bool)
    | Ended

  datatype State = State(
    generation: nat,
    unsubscribe: Option<Saver>,
    timer: Option<Saver>,
    file: Option<Sealed>,
    cache: map<string, Entry>,
    tasks: seq<Task>)

  /** How an awaited promise settles; Rejected is also a file call that throws. */
  datatype Value = Rejected | Null | Ready | Text(sealed: Sealed) | Key(key: int)

  datatype Event =
    | StartSaving(buster: string)
    | StopSaving
    | ListAnswered
    | TimerFires(entries: seq<(string, Entry)>, now: int)
    | BeginRestore(buster: string, until: int)
    | BeginWipe
    | Answer(query: string, entry: Entry)
    | Forget(query: string)
    | Resume(task: nat, value: Value, now: int)

  function Initial(file: Option<Sealed>): State {
    State(0, None, None, file, map[], [])
  }

  // ---------------------------------------------------------------- segments, as functions

  /** `fresh`: within seven days either way. */
  predicate Fresh(at: int, now: int) {
    -CACHE_MAX_AGE_MS <= now - at <= CACHE_MAX_AGE_MS
  }

  function FreshOnly(entries: seq<(string, Entry)>, now: int): seq<(string, Entry)> {
    if entries == [] then []
    else
      var before, last := FreshOnly(entries[..|entries| - 1], now), entries[|entries| - 1];
      if Fresh(last.1.at, now) then before + [last] else before
  }

  /** `readCacheBody`: None when the whole file is to be ignored. */
  function ReadBody(sealed: Sealed, now: int): Option<seq<(string, Entry)>> {
    if sealed.body.None? || !Fresh(sealed.body.value.savedAt, now) then None
    else Some(FreshOnly(sealed.body.value.entries, now))
  }

  /** Entries go in only where the cache holds nothing: a network answer that beat the disk wins. */
  function PutAbsent(cache: map<string, Entry>, entries: seq<(string, Entry)>): map<string, Entry> {
    if entries == [] then cache
    else
      var before, (query, entry) := PutAbsent(cache, entries[..|entries| - 1]), entries[|entries| - 1];
      if query in before then before else before[query := entry]
  }

  function Spawned(s: State, task: Task): State {
    s.(tasks := s.tasks + [task])
  }

  function Became(s: State, id: nat, task: Task): State
    requires id < |s.tasks|
  {
    s.(tasks := s.tasks[id := task])
  }

  function Stopped(s: State): State {
    s.(unsubscribe := None, timer := None)
  }

  /** `save` up to its first await. */
  function SaveBegins(s: State, saver: Saver, body: Body): State {
    Spawned(s, if saver.started != s.generation then Ended else SaveAwaitsStore(saver, body))
  }

  function SaveResumes(s: State, id: nat, value: Value): State
    requires id < |s.tasks| && (s.tasks[id].SaveAwaitsStore? || s.tasks[id].SaveAwaitsKey?)
  {
    var t := s.tasks[id];
    if t.SaveAwaitsStore? then Became(s, id, if value.Ready? then SaveAwaitsKey(t.saver, t.body) else Ended)
    else if value.Key? && t.saver.started == s.generation then
      Became(s, id, Ended).(file := Some(Sealed(value.key, t.saver.buster, Some(t.body), t.saver.started)))
    else Became(s, id, Ended)
  }

  function OpenCache(key: Option<int>, sealed: Sealed, buster: string): bool {
    key == Some(sealed.key) && buster == sealed.buster
  }

  function RestoreResumes(s: State, id: nat, value: Value, now: int): State
    requires id < |s.tasks|
    requires s.tasks[id].RestoreAwaitsStore? || s.tasks[id].RestoreAwaitsText? || s.tasks[id].RestoreAwaitsKey?
  {
    match s.tasks[id]
    case RestoreAwaitsStore(started, buster, until) =>
      Became(s, id, if value.Ready? then RestoreAwaitsText(started, buster, until) else Ended)
    case RestoreAwaitsText(started, buster, until) =>
      Became(s, id, if value.Text? then RestoreAwaitsKey(started, buster, until, value.sealed) else Ended)
    case RestoreAwaitsKey(started, buster, until, sealed) =>
      var done := Became(s, id, Ended);
      if !(value.Key? || value.Null?) then done
      else if !OpenCache(if value.Key? then Some(value.key) else None, sealed, buster) then
        (if started == s.generation then done.(file := None) else done)
      else if ReadBody(sealed, now).None? || started != s.generation || now > until then done
      else done.(cache := PutAbsent(s.cache, ReadBody(sealed, now).value))
    case _ => s
  }

  function WipeBegins(s: State): State {
    Spawned(Stopped(s.(generation := s.generation + 1)), WipeAwaitsStore(s.generation + 1))
  }

  function WipeResumes(s: State, id: nat, value: Value): State
    requires id < |s.tasks| && (s.tasks[id].WipeAwaitsStore? || s.tasks[id].WipeAwaitsDeletion?)
  {
    var t := s.tasks[id];
    if t.WipeAwaitsStore? then
      var next := Became(s, id, WipeAwaitsDeletion(t.wiped, value.Ready?));
      (if value.Ready? then next.(file := None) else next)
    else Became(s, id, WipeEnded(t.wiped, t.removed))
  }

  function Next(s: State, e: Event): State {
    match e
    case StartSaving(buster) => Stopped(s).(unsubscribe := Some(Saver(s.generation, buster)))
    case StopSaving => Stopped(s)
    case ListAnswered => if s.unsubscribe.Some? && s.timer.None? then s.(timer := s.unsubscribe) else s
    case TimerFires(entries, now) =>
      if s.timer.None? then s else SaveBegins(s.(timer := None), s.timer.value, Body(now, entries))
    case BeginRestore(buster, until) => Spawned(s, RestoreAwaitsStore(s.generation, buster, until))
    case BeginWipe => WipeBegins(s)
    case Answer(query, entry) => s.(cache := s.cache[query := entry])
    case Forget(query) => s.(cache := s.cache - {query})
    case Resume(id, value, now) =>
      if id >= |s.tasks| then s
      else
        match s.tasks[id]
        case SaveAwaitsStore(_, _) => SaveResumes(s, id, value)
        case SaveAwaitsKey(_, _) => SaveResumes(s, id, value)
        case RestoreAwaitsStore(_, _, _) => RestoreResumes(s, id, value, now)
        case RestoreAwaitsText(_, _, _) => RestoreResumes(s, id, value, now)
        case RestoreAwaitsKey(_, _, _, _) => RestoreResumes(s, id, value, now)
        case WipeAwaitsStore(_) => WipeResumes(s, id, value)
        case WipeAwaitsDeletion(_, _) => WipeResumes(s, id, value)
        case _ => s
  }

  // ---------------------------------------------------------------- the module

  class Persistence {
    var generation: nat
    var unsubscribe: Option<Saver>
    var timer: Option<Saver>
    var file: Option<Sealed>
    var cache: map<string, Entry>
    var tasks: seq<Task>

    function View(): State
      reads this
    {
      State(generation, unsubscribe, timer, file, cache, tasks)
    }

    constructor (onDisk: Option<Sealed>)
      ensures View() == Initial(onDisk)
    {
      generation, unsubscribe, timer, file, cache, tasks := 0, None, None, onDisk, map[], [];
    }

    /** `stopSavingSummaries` */
    method StopSavingSummaries()
      modifies this
      ensures View() == Next(old(View()), StopSaving)
    {
      unsubscribe := None;
      timer := None;
    }

    /** `startSavingSummaries` */
    method StartSavingSummaries(buster: string)
      modifies this
      ensures View() == Next(old(View()), StartSaving(buster))
    {
      StopSavingSummaries();
      unsubscribe := Some(Saver(generation, buster));
    }

    /** The subscription's callback, for an allowed list that got an answer or was removed. */
    method OnListAnswered()
      modifies this
      ensures View() == Next(old(View()), ListAnswered)
    {
      if unsubscribe.None? || timer.Some? { return; }
      timer := unsubscribe;
    }

    /** The timer's callback, and `save` up to its first await. */
    method OnTimer(entries: seq<(string, Entry)>, now: int)
      modifies this
      ensures View() == Next(old(View()), TimerFires(entries, now))
    {
      if timer.None? { return; }
      var saver := timer.value;
      timer := None;
      tasks := tasks + [if saver.started != generation then Ended else SaveAwaitsStore(saver, Body(now, entries))];
    }

    /** `save` after an await. */
    method ResumeSave(id: nat, value: Value, now: int)
      requires id < |tasks| && (tasks[id].SaveAwaitsStore? || tasks[id].SaveAwaitsKey?)
      modifies this
      ensures View() == Next(old(View()), Resume(id, value, now))
    {
      match tasks[id] {
        case SaveAwaitsStore(saver, body) =>
          tasks := tasks[id := if value.Ready? then SaveAwaitsKey(saver, body) else Ended];
        case SaveAwaitsKey(saver, body) =>
          tasks := tasks[id := Ended];
          if !value.Key? || saver.started != generation { return; }
          var sealed := Sealed(value.key, saver.buster, Some(body), saver.started);
          if saver.started != generation { return; }
          file := Some(sealed);
      }
    }

    /** `restoreSummaries` up to its first await. */
    method RestoreSummaries(buster: string, until: int)
      modifies this
      ensures View() == Next(old(View()), BeginRestore(buster, until))
    {
      var started := generation;
      tasks := tasks + [RestoreAwaitsStore(started, buster, until)];
    }

    /** `restoreSummaries` after an await. */
    method ResumeRestore(id: nat, value: Value, now: int)
      requires id < |tasks|
      requires tasks[id].RestoreAwaitsStore? || tasks[id].RestoreAwaitsText? || tasks[id].RestoreAwaitsKey?
      modifies this
      ensures View() == Next(old(View()), Resume(id, value, now))
    {
      match tasks[id] {
        case RestoreAwaitsStore(started, buster, until) =>
          tasks := tasks[id := if value.Ready? then RestoreAwaitsText(started, buster, until) else Ended];
        case RestoreAwaitsText(started, buster, until) =>
          tasks := tasks[id := if value.Text? then RestoreAwaitsKey(started, buster, until, value.sealed) else Ended];
        case RestoreAwaitsKey(started, buster, until, sealed) =>
          tasks := tasks[id := Ended];
          if !value.Key? && !value.Null? { return; }
          if !OpenCache(if value.Key? then Some(value.key) else None, sealed, buster) {
            if started == generation { file := None; }
            return;
          }
          var entries := ReadBody(sealed, now);
          if entries.None? || started != generation || now > until { return; }
          PutEntries(entries.value);
      }
    }

    /** The loop over the entries read back. */
    method PutEntries(entries: seq<(string, Entry)>)
      modifies this`cache
      ensures cache == PutAbsent(old(cache), entries)
    {
      for i := 0 to |entries|
        invariant cache == PutAbsent(old(cache), entries[..i])
      {
        assert entries[..i + 1][..i] == entries[..i];
        var (query, entry) := entries[i];
        if query !in cache {
          cache := cache[query := entry];
        }
      }
      assert entries[..|entries|] == entries;
    }

    /** `wipeSummaries` up to its first await. */
    method WipeSummaries()
      modifies this
      ensures View() == Next(old(View()), BeginWipe)
    {
      generation := generation + 1;
      StopSavingSummaries();
      tasks := tasks + [WipeAwaitsStore(generation)];
    }

    /** `wipeSummaries` after an await. */
    method ResumeWipe(id: nat, value: Value, now: int)
      requires id < |tasks| && (tasks[id].WipeAwaitsStore? || tasks[id].WipeAwaitsDeletion?)
      modifies this
      ensures View() == Next(old(View()), Resume(id, value, now))
    {
      match tasks[id] {
        case WipeAwaitsStore(wiped) =>
          if value.Ready? { file := None; }
          tasks := tasks[id := WipeAwaitsDeletion(wiped, value.Ready?)];
        case WipeAwaitsDeletion(wiped, removed) =>
          tasks := tasks[id := WipeEnded(wiped, removed)];
      }
    }
  }

  // ---------------------------------------------------------------- every interleaving

  ghost function Run(file: Option<Sealed>, events: seq<Event>): State {
    if events == [] then Initial(file) else Next(Run(file, events[..|events| - 1]), events[|events| - 1])
  }

  ghost predicate IsSave(t: Task) {
    t.SaveAwaitsStore? || t.SaveAwaitsKey?
  }

  ghost predicate IsRestore(t: Task) {
    t.RestoreAwaitsStore? || t.RestoreAwaitsText? || t.RestoreAwaitsKey?
  }

  /** The generation a running save or restore began in. */
  ghost function Began(t: Task): nat
    requires IsSave(t) || IsRestore(t)
  {
    if IsSave(t) then t.saver.started else t.started
  }

  /** The wipe has got past deleting the file, and the deletion worked. */
  ghost predicate Removed(t: Task) {
    (t.WipeAwaitsDeletion? || t.WipeEnded?) && t.removed
  }

  /** No task is ahead of the generation, and a file outlives only the wipes before its save. */
  ghost predicate Fits(generation: nat, file: Option<Sealed>, t: Task) {
    && (IsSave(t) || IsRestore(t) ==> Began(t) <= generation)
    && (t.WipeAwaitsStore? || t.WipeAwaitsDeletion? || t.WipeEnded? ==> t.wiped <= generation)
    && (Removed(t) && file.Some? ==> t.wiped <= file.value.started)
  }

  ghost predicate Invariant(s: State) {
    && (s.unsubscribe.Some? ==> s.unsubscribe.value.started == s.generation)
    && (s.timer.Some? ==> s.timer.value.started == s.generation)
    && (forall i :: 0 <= i < |s.tasks| ==> Fits(s.generation, s.file, s.tasks[i]))
  }

  /** A resumed task changes itself, and the file only by removing it or by a current save. */
  lemma ResumeEffect(s: State, id: nat, value: Value, now: int)
    requires id < |s.tasks|
    ensures var s' := Next(s, Resume(id, value, now));
            && s' == s.(tasks := s'.tasks, file := s'.file, cache := s'.cache)
            && |s'.tasks| == |s.tasks| && s'.tasks == s.tasks[id := s'.tasks[id]]
            && (s'.file == s.file || s'.file.None?
                || (s'.file.value.started == s.generation && !Removed(s'.tasks[id])))
  {
  }

  lemma ResumeFits(s: State, id: nat, value: Value, now: int)
    requires id < |s.tasks| && Fits(s.generation, s.file, s.tasks[id])
    ensures var s' := Next(s, Resume(id, value, now));
            id < |s'.tasks| && Fits(s.generation, s'.file, s'.tasks[id])
  {
  }

  lemma ResumeKeepsInvariant(s: State, id: nat, value: Value, now: int)
    requires Invariant(s) && id < |s.tasks|
    ensures Invariant(Next(s, Resume(id, value, now)))
  {
    hide Next;
    var s' := Next(s, Resume(id, value, now));
    ResumeEffect(s, id, value, now);
    ResumeFits(s, id, value, now);
    forall i | 0 <= i < |s'.tasks| ensures Fits(s'.generation, s'.file, s'.tasks[i]) {
      assert Fits(s.generation, s.file, s.tasks[i]);
    }
  }

  lemma NextKeepsInvariant(s: State, e: Event)
    requires Invariant(s)
    ensures Invariant(Next(s, e))
  {
    if e.Resume? && e.task < |s.tasks| {
      ResumeKeepsInvariant(s, e.task, e.value, e.now);
    } else {
      var s' := Next(s, e);
      forall i | 0 <= i < |s'.tasks| ensures Fits(s'.generation, s'.file, s'.tasks[i]) {
        if i < |s.tasks| { assert Fits(s.generation, s.file, s.tasks[i]); }
      }
    }
  }

  lemma {:induction false} RunKeepsInvariant(file: Option<Sealed>, events: seq<Event>)
    ensures Invariant(Run(file, events))
  {
    if events != [] {
      RunKeepsInvariant(file, events[..|events| - 1]);
      NextKeepsInvariant(Run(file, events[..|events| - 1]), events[|events| - 1]);
    }
  }

  /** What becomes of one running task: it keeps the generation it began in until it ends. */
  ghost predicate Follows(t: Task, t': Task) {
    || t' == t
    || (IsSave(t) && (t' == Ended || (IsSave(t') && Began(t') == Began(t))))
    || (IsRestore(t) && (t' == Ended || (IsRestore(t') && Began(t') == Began(t))))
    || (!t.Ended? && !IsSave(t) && !IsRestore(t) && !IsSave(t') && !IsRestore(t'))
  }

  lemma NextFollows(s: State, e: Event)
    ensures var s' := Next(s, e);
            && s.generation <= s'.generation && |s.tasks| <= |s'.tasks|
            && forall i :: 0 <= i < |s.tasks| ==> Follows(s.tasks[i], s'.tasks[i])
    ensures e.BeginWipe? ==> Next(s, e).generation == s.generation + 1
  {
  }

  /** Along any continuation, a task stays itself. */
  lemma {:induction false} RunFollows(file: Option<Sealed>, events: seq<Event>, n: nat, id: nat)
    requires n <= |events| && id < |Run(file, events[..n]).tasks|
    ensures var before, after := Run(file, events[..n]), Run(file, events);
            && before.generation <= after.generation
            && id < |after.tasks| && Follows(before.tasks[id], after.tasks[id])
    decreases |events|
  {
    hide Next;
    if n == |events| {
      assert events[..n] == events;
    } else {
      var earlier := events[..|events| - 1];
      assert earlier[..n] == events[..n];
      RunFollows(file, earlier, n, id);
      var mid, after := Run(file, earlier), Run(file, events);
      NextFollows(mid, events[|events| - 1]);
      assert Follows(mid.tasks[id], after.tasks[id]);
    }
  }

  /** After a wipe began at event n, the generation is above that of everything running before it. */
  lemma GenerationPassed(file: Option<Sealed>, events: seq<Event>, n: nat, id: nat)
    requires n < |events| && events[n].BeginWipe?
    requires id < |Run(file, events[..n]).tasks|
    ensures var before, after := Run(file, events[..n]), Run(file, events);
            && id < |after.tasks| && Follows(before.tasks[id], after.tasks[id])
            && before.generation < after.generation
  {
    assert events[..n + 1][..n] == events[..n];
    NextFollows(Run(file, events[..n]), events[n]);
    RunFollows(file, events, n, id);
    assert Run(file, events[..n + 1]).generation == Run(file, events[..n]).generation + 1;
    RunFollows(file, events, n + 1, id);
  }

  /**
   * A save begun before a wipe never writes the file after that wipe begins: whatever happens in
   * between, whenever that save goes on, the file is as it was.
   */
  lemma SaveNeverUndoesWipe(file: Option<Sealed>, events: seq<Event>, n: nat, id: nat, value: Value, now: int)
    requires n < |events| && events[n].BeginWipe?
    requires var before := Run(file, events[..n]); id < |before.tasks| && IsSave(before.tasks[id])
    ensures var after := Run(file, events);
            Next(after, Resume(id, value, now)).file == after.file
  {
    RunKeepsInvariant(file, events[..n]);
    GenerationPassed(file, events, n, id);
  }

  /** A restore begun before a wipe puts nothing in the cache after it, and does not touch the file. */
  lemma RestoreStopsAtWipe(file: Option<Sealed>, events: seq<Event>, n: nat, id: nat, value: Value, now: int)
    requires n < |events| && events[n].BeginWipe?
    requires var before := Run(file, events[..n]); id < |before.tasks| && IsRestore(before.tasks[id])
    ensures var after := Run(file, events);
            var next := Next(after, Resume(id, value, now));
            next.cache == after.cache && next.file == after.file
  {
    RunKeepsInvariant(file, events[..n]);
    GenerationPassed(file, events, n, id);
  }

  /**
   * When a restore changes the cache, its deadline has not passed, it opened the file under the
   * person's own buster, it changed no entry that was already there, and what it added the file held,
   * no older than a week.
   */
  lemma RestorePutsLittle(s: State, id: nat, value: Value, now: int)
    requires id < |s.tasks|
    requires Next(s, Resume(id, value, now)).cache != s.cache
    ensures s.tasks[id].RestoreAwaitsKey? && now <= s.tasks[id].until && s.tasks[id].started == s.generation
    ensures s.tasks[id].sealed.buster == s.tasks[id].buster && value == Key(s.tasks[id].sealed.key)
    ensures var after := Next(s, Resume(id, value, now)).cache;
            && (forall query :: query in s.cache ==> query in after && after[query] == s.cache[query])
            && (forall query :: query in after && query !in s.cache ==>
                  (query, after[query]) in s.tasks[id].sealed.body.value.entries && Fresh(after[query].at, now))
  {
    var entries := s.tasks[id].sealed.body.value.entries;
    PutAbsentKeeps(s.cache, FreshOnly(entries, now));
    FreshOnlyKeeps(entries, now);
  }

  lemma {:induction false} FreshOnlyKeeps(entries: seq<(string, Entry)>, now: int)
    ensures forall e :: e in FreshOnly(entries, now) ==> e in entries && Fresh(e.1.at, now)
  {
    if entries != [] {
      FreshOnlyKeeps(entries[..|entries| - 1], now);
      assert entries == entries[..|entries| - 1] + [entries[|entries| - 1]];
    }
  }

  lemma {:induction false} PutAbsentKeeps(cache: map<string, Entry>, entries: seq<(string, Entry)>)
    ensures var after := PutAbsent(cache, entries);
            && (forall query :: query in cache ==> query in after && after[query] == cache[query])
            && (forall query :: query in after ==> query in cache || (query, after[query]) in entries)
  {
    if entries != [] {
      var earlier := entries[..|entries| - 1];
      assert entries == earlier + [entries[|entries| - 1]];
      PutAbsentKeeps(cache, earlier);
      var after := PutAbsent(cache, entries);
      forall query | query in after && query !in cache ensures (query, after[query]) in entries {
        if (query, after[query]) !in earlier {
          assert (query, after[query]) == entries[|entries| - 1];
        }
      }
    }
  }

  /**
   * Once a wipe has ended with the file removed, and ever after, any file there is was written by a
   * save begun after that wipe.
   */
  lemma FileIsNewerThanWipe(file: Option<Sealed>, events: seq<Event>, id: nat)
    requires var s := Run(file, events); id < |s.tasks| && s.tasks[id].WipeEnded? && s.tasks[id].removed
    ensures var s := Run(file, events);
            s.file.None? || s.tasks[id].wiped <= s.file.value.started
  {
    RunKeepsInvariant(file, events);
  }

  /** Only a save of the current generation ever writes the file. */
  lemma OnlyCurrentSavesWrite(s: State, e: Event)
    requires Next(s, e).file.Some? && Next(s, e).file != s.file
    ensures e.Resume? && e.task < |s.tasks| && s.tasks[e.task].SaveAwaitsKey?
    ensures Next(s, e).file.value.started == s.generation == s.tasks[e.task].saver.started
  {
  }

  // ---------------------------------------------------------------- what is saved is what is restored

  /** From event n up to event m nothing resumes this task, and no wipe begins. */
  ghost predicate Quiet(events: seq<Event>, n: nat, m: nat, id: nat) {
    n <= m <= |events| && forall k :: n <= k < m ==> !events[k].BeginWipe? && !(events[k].Resume? && events[k].task == id)
  }

  lemma OneMore(file: Option<Sealed>, events: seq<Event>, n: nat)
    requires n < |events|
    ensures Run(file, events[..n + 1]) == Next(Run(file, events[..n]), events[n])
  {
    assert events[..n + 1][..n] == events[..n];
  }

  lemma OthersStay(s: State, e: Event, id: nat)
    requires id < |s.tasks| && !(e.Resume? && e.task == id)
    ensures var s' := Next(s, e);
            id < |s'.tasks| && s'.tasks[id] == s.tasks[id] && (!e.BeginWipe? ==> s'.generation == s.generation)
  {
  }

  /** Meanwhile it waits as it was. */
  lemma {:induction false} QuietKeeps(file: Option<Sealed>, events: seq<Event>, n: nat, m: nat, id: nat)
    requires Quiet(events, n, m, id) && id < |Run(file, events[..n]).tasks|
    ensures var before, after := Run(file, events[..n]), Run(file, events[..m]);
            after.generation == before.generation && id < |after.tasks| && after.tasks[id] == before.tasks[id]
    decreases m
  {
    hide Next, Run;
    if n < m {
      QuietKeeps(file, events, n, m - 1, id);
      OneMore(file, events, m - 1);
      OthersStay(Run(file, events[..m - 1]), events[m - 1], id);
    }
  }

  lemma {:induction false} TaskWaits(file: Option<Sealed>, events: seq<Event>, n: nat, m: nat, id: nat)
    requires n <= m <= |events| && id < |Run(file, events[..n]).tasks|
    requires forall k :: n <= k < m ==> !(events[k].Resume? && events[k].task == id)
    ensures var before, after := Run(file, events[..n]), Run(file, events[..m]);
            id < |after.tasks| && after.tasks[id] == before.tasks[id]
    decreases m
  {
    hide Next, Run;
    if n < m {
      TaskWaits(file, events, n, m - 1, id);
      OneMore(file, events, m - 1);
      OthersStay(Run(file, events[..m - 1]), events[m - 1], id);
    }
  }

  /**
   * A wipe wipes: from its beginning at n nothing is subscribed or scheduled, and when the store answers,
   * at p, whatever has happened since, the file is gone and no earlier generation can write it again.
   */
  lemma WipeWipes(file: Option<Sealed>, events: seq<Event>, n: nat, p: nat)
    requires n < p < |events| && events[n].BeginWipe?
    requires var id := |Run(file, events[..n]).tasks|;
             && events[p].Resume? && events[p].task == id && events[p].value == Ready
             && forall k :: n < k < p ==> !(events[k].Resume? && events[k].task == id)
    ensures var begun, done := Run(file, events[..n + 1]), Run(file, events[..p + 1]);
            && begun.unsubscribe == None && begun.timer == None
            && begun.generation == Run(file, events[..n]).generation + 1 <= done.generation
            && done.file == None
            && |Run(file, events[..n]).tasks| < |done.tasks|
            && done.tasks[|Run(file, events[..n]).tasks|] == WipeAwaitsDeletion(begun.generation, true)
  {
    var id := |Run(file, events[..n]).tasks|;
    OneMore(file, events, n);
    TaskWaits(file, events, n + 1, p, id);
    OneMore(file, events, p);
    RunKeepsInvariant(file, events[..p + 1]);
    hide Run;
    assert Fits(Run(file, events[..p + 1]).generation, None, Run(file, events[..p + 1]).tasks[id]);
  }

  /** The person stays signed in: nothing stops, restarts or wipes what is saved for them. */
  ghost predicate StaysSubscribed(events: seq<Event>, n: nat, m: nat) {
    n <= m <= |events|
    && forall k :: n <= k < m ==> !events[k].StartSaving? && !events[k].StopSaving? && !events[k].BeginWipe?
  }

  lemma SubscribedStep(s: State, e: Event, saver: Saver)
    requires s.unsubscribe == Some(saver) && (s.timer.None? || s.timer == Some(saver))
    requires !e.StartSaving? && !e.StopSaving? && !e.BeginWipe?
    ensures var s' := Next(s, e);
            && s'.unsubscribe == Some(saver) && (s'.timer.None? || s'.timer == Some(saver))
            && (e.ListAnswered? || (s.timer.Some? && !e.TimerFires?) ==> s'.timer == Some(saver))
  {
  }

  lemma {:induction false} Subscribed(file: Option<Sealed>, events: seq<Event>, n: nat, m: nat)
    requires n < m && StaysSubscribed(events, n + 1, m) && events[n].StartSaving?
    ensures var saver, s := Saver(Run(file, events[..n]).generation, events[n].buster), Run(file, events[..m]);
            s.unsubscribe == Some(saver) && (s.timer.None? || s.timer == Some(saver))
    decreases m
  {
    OneMore(file, events, m - 1);
    hide Run;
    if n + 1 < m {
      Subscribed(file, events, n, m - 1);
      SubscribedStep(Run(file, events[..m - 1]), events[m - 1],
                     Saver(Run(file, events[..n]).generation, events[n].buster));
    }
  }

  /** While a person's saving goes on, any answer of an allowed list has a save scheduled until its timer fires. */
  lemma {:induction false} AnswerSchedulesSave(file: Option<Sealed>, events: seq<Event>, n: nat, l: nat, m: nat)
    requires n < l < m && StaysSubscribed(events, n + 1, m) && events[n].StartSaving? && events[l].ListAnswered?
    requires forall k :: l < k < m ==> !events[k].TimerFires?
    ensures Run(file, events[..m]).timer == Some(Saver(Run(file, events[..n]).generation, events[n].buster))
    decreases m
  {
    var s, saver := Run(file, events[..m - 1]), Saver(Run(file, events[..n]).generation, events[n].buster);
    OneMore(file, events, m - 1);
    hide Run, Next;
    Subscribed(file, events, n, m - 1);
    if l < m - 1 {
      AnswerSchedulesSave(file, events, n, l, m - 1);
      assert !events[m - 1].TimerFires?;
    }
    assert !events[m - 1].StartSaving? && !events[m - 1].StopSaving? && !events[m - 1].BeginWipe?;
    SubscribedStep(s, events[m - 1], saver);
  }

  /** A save: its timer fires at n, the store answers at p and the key at q, and no wipe begins in between. */
  ghost predicate Saves(file: Option<Sealed>, events: seq<Event>, n: nat, p: nat, q: nat, key: int) {
    && n < p < q < |events| && events[n].TimerFires? && Run(file, events[..n]).timer.Some?
    && var id := |Run(file, events[..n]).tasks|;
    && events[p].Resume? && events[p].task == id && events[p].value == Ready
    && events[q].Resume? && events[q].task == id && events[q].value == Key(key)
    && Quiet(events, n + 1, p, id) && Quiet(events, p + 1, q, id)
  }

  /** Such a save writes exactly what the cache held when its timer fired, under the key and the buster. */
  lemma SaveSaves(file: Option<Sealed>, events: seq<Event>, n: nat, p: nat, q: nat, key: int)
    requires Saves(file, events, n, p, q, key)
    ensures var saver := Run(file, events[..n]).timer.value;
            Run(file, events[..q + 1]).file
            == Some(Sealed(key, saver.buster, Some(Body(events[n].now, events[n].entries)), saver.started))
  {
    hide Run;
    var id := |Run(file, events[..n]).tasks|;
    RunKeepsInvariant(file, events[..n]);
    OneMore(file, events, n);
    QuietKeeps(file, events, n + 1, p, id);
    OneMore(file, events, p);
    QuietKeeps(file, events, p + 1, q, id);
    OneMore(file, events, q);
  }

  /** The first entry listed for the query that is no older than a week. */
  function FirstFresh(entries: seq<(string, Entry)>, query: string, now: int): Option<Entry> {
    if entries == [] then None
    else
      var before, (name, entry) := FirstFresh(entries[..|entries| - 1], query, now), entries[|entries| - 1];
      if before.None? && name == query && Fresh(entry.at, now) then Some(entry) else before
  }

  /** The list shows it, fresh, and nothing fresh for the query before it. */
  lemma {:induction false} FirstFreshIsFirst(entries: seq<(string, Entry)>, query: string, now: int) returns (i: nat)
    ensures i <= |entries| && forall j :: 0 <= j < i ==> !(entries[j].0 == query && Fresh(entries[j].1.at, now))
    ensures FirstFresh(entries, query, now).None? <==> i == |entries|
    ensures i < |entries| ==>
              entries[i].0 == query && Fresh(entries[i].1.at, now) && FirstFresh(entries, query, now) == Some(entries[i].1)
  {
    hide Fresh;
    i := 0;
    if entries != [] {
      var n := |entries| - 1;
      i := FirstFreshIsFirst(entries[..n], query, now);
      if i == n && !(entries[n].0 == query && Fresh(entries[n].1.at, now)) { i := n + 1; }
    }
  }

  /** What the cache holds once these entries were restored into it: its own entry, or the first fresh one listed. */
  ghost predicate Restored(before: map<string, Entry>, after: map<string, Entry>, entries: seq<(string, Entry)>, now: int) {
    forall query ::
      (if query in after then Some(after[query]) else None)
      == if query in before then Some(before[query]) else FirstFresh(entries, query, now)
  }

  lemma {:induction false} PutFresh(cache: map<string, Entry>, entries: seq<(string, Entry)>, now: int)
    ensures Restored(cache, PutAbsent(cache, FreshOnly(entries, now)), entries, now)
  {
    hide Fresh;
    if entries != [] {
      var before, last := entries[..|entries| - 1], entries[|entries| - 1];
      PutFresh(cache, before, now);
      PutOneMore(cache, FreshOnly(before, now), last);
    }
  }

  lemma PutOneMore(cache: map<string, Entry>, entries: seq<(string, Entry)>, last: (string, Entry))
    ensures var mid := PutAbsent(cache, entries);
            PutAbsent(cache, entries + [last]) == if last.0 in mid then mid else mid[last.0 := last.1]
  {
    assert (entries + [last])[..|entries|] == entries;
  }

  /**
   * A restore whose file opens, read before its deadline and within a week of its save: every query keeps
   * the cache's own entry, or gets the first fresh one the file lists; the file stays.
   */
  lemma RestoreGivesBack(s: State, id: nat, now: int)
    requires id < |s.tasks| && s.tasks[id].RestoreAwaitsKey? && s.tasks[id].started == s.generation
    requires s.tasks[id].sealed.buster == s.tasks[id].buster && s.tasks[id].sealed.body.Some? && now <= s.tasks[id].until
    requires -604_800_000 <= now - s.tasks[id].sealed.body.value.savedAt <= 604_800_000
    ensures var sealed := s.tasks[id].sealed;
            var s' := Next(s, Resume(id, Key(sealed.key), now));
            s'.file == s.file && Restored(s.cache, s'.cache, sealed.body.value.entries, now)
  {
    PutFresh(s.cache, s.tasks[id].sealed.body.value.entries, now);
  }

  /** A file that the key answered does not open is discarded, by a restore of the present generation and no other. */
  lemma RestoreDiscardsExactly(s: State, id: nat, value: Value, now: int)
    requires id < |s.tasks| && s.tasks[id].RestoreAwaitsKey? && s.file.Some? && (value.Key? || value.Null?)
    ensures var t := s.tasks[id];
            Next(s, Resume(id, value, now)).file
            == if value != Key(t.sealed.key) || t.buster != t.sealed.buster
               then (if t.started == s.generation then None else s.file) else s.file
  {
  }

  /** A restore: begun at n, the store answers at p, the file's text at r and the key at q, no wipe in between. */
  ghost predicate Restores(file: Option<Sealed>, events: seq<Event>, n: nat, p: nat, r: nat, q: nat, sealed: Sealed) {
    && n < p < r < q < |events| && events[n].BeginRestore?
    && var id := |Run(file, events[..n]).tasks|;
    && events[p].Resume? && events[p].task == id && events[p].value == Ready
    && events[r].Resume? && events[r].task == id && events[r].value == Text(sealed)
    && events[q].Resume? && events[q].task == id && events[q].value == Key(sealed.key)
    && Quiet(events, n + 1, p, id) && Quiet(events, p + 1, r, id) && Quiet(events, r + 1, q, id)
  }

  lemma RestoreRestores(file: Option<Sealed>, events: seq<Event>, n: nat, p: nat, r: nat, q: nat, sealed: Sealed)
    requires Restores(file, events, n, p, r, q, sealed) && sealed.buster == events[n].buster && sealed.body.Some?
    requires events[q].now <= events[n].until && -604_800_000 <= events[q].now - sealed.body.value.savedAt <= 604_800_000
    ensures var before, after := Run(file, events[..q]), Run(file, events[..q + 1]);
            after.file == before.file && Restored(before.cache, after.cache, sealed.body.value.entries, events[q].now)
  {
    hide Run, Restored;
    var id := |Run(file, events[..n]).tasks|;
    OneMore(file, events, n);
    QuietKeeps(file, events, n + 1, p, id);
    OneMore(file, events, p);
    QuietKeeps(file, events, p + 1, r, id);
    OneMore(file, events, r);
    QuietKeeps(file, events, r + 1, q, id);
    OneMore(file, events, q);
    RestoreGivesBack(Run(file, events[..q]), id, events[q].now);
  }

  /**
   * The round trip, over two runs of the app. One saves; the next starts on the file it left, is the same
   * person's, and restores in time: every query keeps the answer that came first, or shows what was saved.
   */
  lemma SavedIsRestored(file: Option<Sealed>, events: seq<Event>, n: nat, p: nat, q: nat, key: int,
                        later: seq<Event>, n': nat, p': nat, r': nat, q': nat)
    requires Saves(file, events, n, p, q, key)
    requires var left := Run(file, events[..q + 1]).file;
             left.Some? && Restores(left, later, n', p', r', q', left.value)
    requires later[n'].buster == Run(file, events[..n]).timer.value.buster
    requires later[q'].now <= later[n'].until && -604_800_000 <= later[q'].now - events[n].now <= 604_800_000
    ensures var left := Run(file, events[..q + 1]).file;
            var before, after := Run(left, later[..q']), Run(left, later[..q' + 1]);
            after.file == before.file && Restored(before.cache, after.cache, events[n].entries, later[q'].now)
  {
    hide Run, Restored, Restores, Saves;
    SaveSaves(file, events, n, p, q, key);
    SavesFires(file, events, n, p, q, key);
    var left := Run(file, events[..q + 1]).file;
    RestoresBegins(left, later, n', p', r', q', left.value);
    RestoreRestores(left, later, n', p', r', q', left.value);
  }

  lemma SavesFires(file: Option<Sealed>, events: seq<Event>, n: nat, p: nat, q: nat, key: int)
    requires Saves(file, events, n, p, q, key)
    ensures n < p < q < |events| && events[n].TimerFires? && Run(file, events[..n]).timer.Some?
  {
  }

  lemma RestoresBegins(file: Option<Sealed>, events: seq<Event>, n: nat, p: nat, r: nat, q: nat, sealed: Sealed)
    requires Restores(file, events, n, p, r, q, sealed)
    ensures n < q < |events| && events[n].BeginRestore? && events[q].Resume?
  {
  }
}
