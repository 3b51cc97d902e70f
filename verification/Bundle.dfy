/**
 * scripts/bundle_pqc.py: collecting every module the entries need, and the `__req` runtime the
 * bundle carries. A module is its list of imports; rewriting its text is not part of this model.
 */
module Bundle {
  import opened Wrappers

  /** A module id: its normalised path. */
  datatype Id = Id(parts: seq<string>)

  /** The module files there are, each with the ids it imports. */
  type Files = map<Id, seq<Id>>

  // ---------------------------------------------------------------- normalise

  /** `normalise`, on the parts between slashes; None is `pop` from an empty list. */
  function NormaliseParts(parts: seq<string>): Option<seq<string>> {
    if parts == [] then Some([])
    else
      match NormaliseParts(parts[..|parts| - 1])
      case None => None
      case Some(before) =>
        var part := parts[|parts| - 1];
        if part == ".." then (if before == [] then None else Some(before[..|before| - 1]))
        else if part == "" || part == "." then Some(before)
        else Some(before + [part])
  }

  method Normalise(parts: seq<string>) returns (result: Option<seq<string>>)
    ensures result == NormaliseParts(parts)
  {
    var kept: seq<string> := [];
    for i := 0 to |parts|
      invariant NormaliseParts(parts[..i]) == Some(kept)
    {
      assert parts[..i + 1][..i] == parts[..i];
      if parts[i] == ".." {
        if kept == [] {
          NoneStays(parts, i + 1);
          return None;
        }
        kept := kept[..|kept| - 1];
      } else if parts[i] != "" && parts[i] != "." {
        kept := kept + [parts[i]];
      }
    }
    assert parts[..|parts|] == parts;
    result := Some(kept);
  }

  lemma {:induction false} NoneStays(parts: seq<string>, n: nat)
    requires n <= |parts| && NormaliseParts(parts[..n]) == None
    ensures NormaliseParts(parts) == None
    decreases |parts|
  {
    if n == |parts| {
      assert parts[..n] == parts;
    } else {
      assert parts[..|parts| - 1][..n] == parts[..n];
      NoneStays(parts[..|parts| - 1], n);
    }
  }

  ghost predicate Plain(parts: seq<string>) {
    forall i :: 0 <= i < |parts| ==> parts[i] != ".." && parts[i] != "." && parts[i] != ""
  }

  /** A normalised id has no dots left, and normalising it again changes nothing. */
  lemma {:induction false} NormaliseIsIdempotent(parts: seq<string>)
    requires NormaliseParts(parts).Some?
    ensures Plain(NormaliseParts(parts).value)
    ensures NormaliseParts(NormaliseParts(parts).value) == NormaliseParts(parts)
  {
    if parts != [] {
      NormaliseIsIdempotent(parts[..|parts| - 1]);
    }
    PlainStays(NormaliseParts(parts).value);
  }

  lemma {:induction false} PlainStays(parts: seq<string>)
    requires Plain(parts)
    ensures NormaliseParts(parts) == Some(parts)
  {
    if parts != [] {
      var before, last := parts[..|parts| - 1], parts[|parts| - 1];
      assert parts == before + [last];
      assert Plain(before);
      PlainStays(before);
    }
  }

  /** Going into a folder and straight back out again leads nowhere new. */
  lemma InAndOut(before: seq<string>, folder: string, after: seq<string>)
    requires folder != ".." && folder != "." && folder != ""
    ensures NormaliseParts(before + [folder, ".."] + after) == NormaliseParts(before + after)
  {
    var here := before + [folder];
    assert here[..|before|] == before;
    assert (here + [".."])[..|here|] == here;
    assert before + [folder, ".."] == here + [".."];
    SameSoFar(here + [".."], before, after);
  }

  /** A dot, or nothing between two slashes, stands for no part at all. */
  lemma DotsChangeNothing(before: seq<string>, after: seq<string>)
    ensures NormaliseParts(before + ["."] + after) == NormaliseParts(before + after)
    ensures NormaliseParts(before + [""] + after) == NormaliseParts(before + after)
  {
    assert (before + ["."])[..|before|] == before && (before + [""])[..|before|] == before;
    SameSoFar(before + ["."], before, after);
    SameSoFar(before + [""], before, after);
  }

  /** An id cannot climb out of the root. */
  lemma {:induction false} ClimbingOut(after: seq<string>)
    ensures NormaliseParts([".."] + after) == None
  {
    if after == [] {
      assert [".."] + after == [".."] && [".."][..0] == [];
    } else {
      var all := [".."] + after;
      assert all[..|all| - 1] == [".."] + after[..|after| - 1];
      ClimbingOut(after[..|after| - 1]);
    }
  }

  lemma {:induction false} SameSoFar(a: seq<string>, b: seq<string>, after: seq<string>)
    requires NormaliseParts(a) == NormaliseParts(b)
    ensures NormaliseParts(a + after) == NormaliseParts(b + after)
  {
    if after == [] {
      assert a + after == a && b + after == b;
    } else {
      var rest := after[..|after| - 1];
      assert (a + after)[..|a + after| - 1] == a + rest && (b + after)[..|b + after| - 1] == b + rest;
      SameSoFar(a, b, rest);
    }
  }

  // ---------------------------------------------------------------- collecting

  ghost predicate Imports(files: Files, id: Id, dep: Id) {
    id in files && dep in files[id]
  }

  /** A chain of imports starting at an entry. */
  ghost predicate ImportChain(files: Files, entries: seq<Id>, path: seq<Id>) {
    && path != []
    && if |path| == 1 then path[0] in entries
       else ImportChain(files, entries, path[..|path| - 1]) && Imports(files, path[|path| - 2], path[|path| - 1])
  }

  ghost predicate Leads(files: Files, entries: seq<Id>, path: seq<Id>, id: Id) {
    ImportChain(files, entries, path) && path[|path| - 1] == id
  }

  ghost predicate Reachable(files: Files, entries: seq<Id>, id: Id) {
    exists path :: Leads(files, entries, path, id)
  }

  lemma EntryReachable(files: Files, entries: seq<Id>, id: Id)
    requires id in entries
    ensures Reachable(files, entries, id)
  {
    assert Leads(files, entries, [id], id);
  }

  lemma ImportReachable(files: Files, entries: seq<Id>, id: Id, dep: Id)
    requires Reachable(files, entries, id) && Imports(files, id, dep)
    ensures Reachable(files, entries, dep)
  {
    var path :| Leads(files, entries, path, id);
    assert (path + [dep])[..|path|] == path;
    assert Leads(files, entries, path + [dep], dep);
  }

  /** The set holds the entries, and everything its members import. */
  ghost predicate ClosedFrom(files: Files, entries: seq<Id>, ids: set<Id>) {
    && (forall e :: e in entries ==> e in ids)
    && (forall id, dep :: id in ids && Imports(files, id, dep) ==> dep in ids)
  }

  lemma {:induction false} ClosedAlong(files: Files, entries: seq<Id>, ids: set<Id>, path: seq<Id>)
    requires ClosedFrom(files, entries, ids) && ImportChain(files, entries, path)
    ensures path[|path| - 1] in ids
  {
    if |path| > 1 { ClosedAlong(files, entries, ids, path[..|path| - 1]); }
  }

  lemma ClosedHoldsReachable(files: Files, entries: seq<Id>, ids: set<Id>)
    requires ClosedFrom(files, entries, ids)
    ensures forall id :: Reachable(files, entries, id) ==> id in ids
  {
    forall id | Reachable(files, entries, id) ensures id in ids {
      var path :| Leads(files, entries, path, id);
      ClosedAlong(files, entries, ids, path);
    }
  }

  datatype Built = Modules(modules: Files) | MissingFile(id: Id)

  /** What the loop keeps: everything queued or collected is reachable, and nothing needed is lost. */
  ghost predicate Collecting(files: Files, entries: seq<Id>, modules: Files, queue: seq<Id>) {
    && (forall id :: id in modules ==> id in files && modules[id] == files[id] && Reachable(files, entries, id))
    && (forall id :: id in queue ==> Reachable(files, entries, id))
    && (forall e :: e in entries ==> e in modules || e in queue)
    && (forall id, dep :: id in modules && Imports(files, id, dep) ==> dep in modules || dep in queue)
  }

  /** Taking an id off the queue, and putting what it imports on. */
  lemma Collects(files: Files, entries: seq<Id>, modules: Files, queue: seq<Id>, id: Id, more: seq<Id>)
    requires Collecting(files, entries, modules, queue + [id]) && id in files && id !in modules
    requires forall d :: d in more <==> d in files[id] && d !in modules && d != id
    ensures Collecting(files, entries, modules[id := files[id]], queue + more)
  {
    assert id in queue + [id];
    forall dep | dep in more ensures Reachable(files, entries, dep) { ImportReachable(files, entries, id, dep); }
    hide Reachable;
  }

  /**
   * `build`'s loop: the bundle holds exactly the modules reachable from the entries, on any import
   * graph, cycles included; or some reachable module has no file.
   */
  method Build(files: Files, entries: seq<Id>) returns (built: Built)
    ensures built.Modules? ==>
              && (forall id :: id in built.modules <==> Reachable(files, entries, id))
              && (forall id :: id in built.modules ==> id in files && built.modules[id] == files[id])
    ensures built.MissingFile? ==> built.id !in files && Reachable(files, entries, built.id)
  {
    hide Reachable, Imports;
    var modules: Files := map[];
    var queue, seen := entries, {};
    forall e | e in entries ensures Reachable(files, entries, e) { EntryReachable(files, entries, e); }
    while queue != []
      invariant modules.Keys == seen && Collecting(files, entries, modules, queue)
      decreases files.Keys - seen, |queue|
    {
      var id := queue[|queue| - 1];
      assert queue == queue[..|queue| - 1] + [id];
      queue := queue[..|queue| - 1];
      if id in seen { continue; }
      seen := seen + {id};
      if id !in files { return MissingFile(id); }
      var deps := files[id];
      var more := NotSeen(deps, seen);
      Collects(files, entries, modules, queue, id, more);
      modules := modules[id := deps];
      queue := queue + more;
    }
    ClosedHoldsReachable(files, entries, modules.Keys);
    built := Modules(modules);
  }

  /** `d for d in deps if d not in seen` */
  function NotSeen(deps: seq<Id>, seen: set<Id>): (r: seq<Id>)
    ensures forall d :: d in r <==> d in deps && d !in seen
  {
    if deps == [] then []
    else (if deps[0] in seen then [] else [deps[0]]) + NotSeen(deps[1..], seen)
  }

  // ---------------------------------------------------------------- the runtime

  /** `__cache`, and the factories that have started, in order. */
  datatype Runtime = Runtime(cache: set<Id>, started: seq<Id>)

  /** Every `__req` in the bundle finds a definition. */
  ghost predicate Closed(defs: Files) {
    forall id, dep :: id in defs && dep in defs[id] ==> dep in defs
  }

  /** `__req(id)`: cached, or cached first and then its factory run, which requires its imports in turn. */
  function Require(defs: Files, rt: Runtime, id: Id): (after: Runtime)
    requires Closed(defs) && id in defs
    ensures rt.cache <= after.cache
    decreases defs.Keys - rt.cache, 0
  {
    if id in rt.cache then rt
    else RequireAll(defs, Runtime(rt.cache + {id}, rt.started + [id]), defs[id])
  }

  function RequireAll(defs: Files, rt: Runtime, ids: seq<Id>): (after: Runtime)
    requires Closed(defs) && forall id :: id in ids ==> id in defs
    ensures rt.cache <= after.cache
    decreases defs.Keys - rt.cache, 1, |ids|
  {
    if ids == [] then rt
    else
      var first := Require(defs, rt, ids[0]);
      RequireAll(defs, first, ids[1..])
  }

  /** The emitted runtime, its cache updated in place. */
  class Loader {
    const defs: Files
    var cache: set<Id>
    var started: seq<Id>

    function View(): Runtime
      reads this
    {
      Runtime(cache, started)
    }

    constructor (defs: Files)
      ensures this.defs == defs && View() == Runtime({}, [])
    {
      this.defs := defs;
      cache, started := {}, [];
    }

    /** `__req` */
    method Req(id: Id)
      requires Closed(defs) && id in defs
      modifies this
      ensures View() == Require(defs, old(View()), id)
      decreases defs.Keys - cache
    {
      if id in cache { return; }
      cache := cache + {id};
      started := started + [id];
      var ids := defs[id];
      ghost var before := View();
      for i := 0 to |ids|
        invariant RequireAll(defs, View(), ids[i..]) == RequireAll(defs, before, ids)
        invariant before.cache <= cache
      {
        assert ids[i..][1..] == ids[i + 1..];
        Req(ids[i]);
      }
    }
  }

  /** Each factory has run at most once, and exactly the cached ones have. */
  ghost predicate RanOnce(rt: Runtime) {
    && (forall i, j :: 0 <= i < j < |rt.started| ==> rt.started[i] != rt.started[j])
    && (forall id :: id in rt.started <==> id in rt.cache)
  }

  /** What requiring adds: the cache grows inside a set that is closed under imports. */
  ghost predicate Loads(defs: Files, before: Runtime, after: Runtime) {
    && RanOnce(after) && before.cache <= after.cache <= before.cache + defs.Keys
    && forall id, dep :: id in after.cache && id !in before.cache && dep in defs[id] ==> dep in after.cache
  }

  lemma {:induction false} RequireLoads(defs: Files, rt: Runtime, id: Id)
    requires Closed(defs) && id in defs && RanOnce(rt)
    ensures Loads(defs, rt, Require(defs, rt, id)) && id in Require(defs, rt, id).cache
    decreases defs.Keys - rt.cache, 0
  {
    if id !in rt.cache {
      var inside := Runtime(rt.cache + {id}, rt.started + [id]);
      assert RanOnce(inside);
      RequireAllLoads(defs, inside, defs[id]);
    }
  }

  lemma {:induction false} RequireAllLoads(defs: Files, rt: Runtime, ids: seq<Id>)
    requires Closed(defs) && RanOnce(rt) && forall id :: id in ids ==> id in defs
    ensures Loads(defs, rt, RequireAll(defs, rt, ids))
    ensures forall id :: id in ids ==> id in RequireAll(defs, rt, ids).cache
    decreases defs.Keys - rt.cache, 1, |ids|
  {
    if ids != [] {
      RequireLoads(defs, rt, ids[0]);
      var first := Require(defs, rt, ids[0]);
      RequireAllLoads(defs, first, ids[1..]);
      assert ids == [ids[0]] + ids[1..];
    }
  }

  /**
   * The bundle that was built, run: every `__req` finds a definition, requiring ends, each factory
   * runs at most once, and once every entry has been exposed every bundled module has run. A factory
   * may require its imports in any order (`calls`).
   */
  lemma BundleRuns(files: Files, entries: seq<Id>, defs: Files, calls: Files)
    requires forall id :: id in defs <==> Reachable(files, entries, id)
    requires forall id :: id in defs ==> id in files && defs[id] == files[id]
    requires calls.Keys == defs.Keys && forall id, dep :: id in defs ==> (dep in calls[id] <==> dep in defs[id])
    ensures Closed(calls) && forall e :: e in entries ==> e in calls
    ensures var after := RequireAll(calls, Runtime({}, []), entries);
            RanOnce(after) && after.cache == defs.Keys
  {
    forall e | e in entries ensures e in calls { EntryReachable(files, entries, e); }
    forall id, dep | id in calls && dep in calls[id] ensures dep in calls { ImportReachable(files, entries, id, dep); }
    hide Reachable;
    RequireAllLoads(calls, Runtime({}, []), entries);
    var after := RequireAll(calls, Runtime({}, []), entries);
    assert ClosedFrom(files, entries, after.cache);
    ClosedHoldsReachable(files, entries, after.cache);
  }
}
