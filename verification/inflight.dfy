/**
 The coordinator of main.go together with the deployments it launches. A
 deployment is running while its `deployWar` has not returned; once it has
 acknowledged a cancel it is cancelled, until its goroutine runs the
 `delete` that follows `deployWar`. Completion is one atomic step: the
 goroutine's `deployWar` returns and it deletes its key. The model shows
 that with the delete as written two deployments of one key can be in
 flight together, and that with the delete guarded by the handle they
 cannot.
 */
module InFlight {
  import opened GoStrings
  import opened Configuration
  import opened Daemon

  /**
   The coordinator, the entry each launched handle deploys, the handles still
   running `deployWar`, and the cancelled handles whose goroutine has not yet
   run its `delete`.
   */
  datatype World = World(coord: Coordinator, entryOf: map<Handle, ConfigurationEntry>,
                         running: set<Handle>, canceled: set<Handle>)

  /** Nothing launched yet. */
  const Start := World(Initial, map[], {}, {})

  /** What one coordinator effect does to the deployments. */
  function ApplyEffect(w: World, x: Effect): World {
    match x
    case CancelAndAwait(h) => w.(running := w.running - {h}, canceled := w.canceled + {h})
    case Launch(h, e) => w.(running := w.running + {h}, entryOf := w.entryOf[h := e])
    case _ => w
  }

  /** The effects of a transition, in order. */
  function Apply(w: World, xs: seq<Effect>): World
    decreases |xs|
  {
    if xs == [] then w else Apply(ApplyEffect(w, xs[0]), xs[1..])
  }

  /** A watcher's result reaches the coordinator. */
  function Arrive(w: World, e: ConfigurationEntry, sha: Sha256): World {
    var t := OnResult(w.coord, e, sha);
    Apply(w.(coord := t.state), t.effects)
  }

  /** A launched deployment's goroutine ends, deleting its key as written; a handle with no goroutine does nothing. */
  function FinishAsWritten(w: World, h: Handle, sha: Sha256): World {
    if h in w.entryOf && (h in w.running || h in w.canceled) then
      World(OnDeployDoneAsWritten(w.coord, w.entryOf[h], sha), w.entryOf, w.running - {h}, w.canceled - {h})
    else
      w
  }

  /** A launched deployment's goroutine ends, deleting its key only if it still holds this handle. */
  function Finish(w: World, h: Handle, sha: Sha256): World {
    if h in w.entryOf && (h in w.running || h in w.canceled) then
      World(OnDeployDone(w.coord, w.entryOf[h], h, sha), w.entryOf, w.running - {h}, w.canceled - {h})
    else
      w
  }

  /** The shutdown request reaches the coordinator. */
  function Shutdown(w: World, order: seq<GoString>): World
    requires Enumerates(order, w.coord.deployMap)
  {
    var t := OnShutdown(w.coord, order);
    Apply(w.(coord := t.state), t.effects)
  }

  /** One thing that can happen while the daemon runs. */
  datatype Step = Arrival(entry: ConfigurationEntry) | Completion(handle: Handle)

  /** A run with the corrected delete. */
  function Run(w: World, steps: seq<Step>, sha: Sha256): World
    decreases |steps|
  {
    if steps == [] then w
    else
      var w' := match steps[0]
                case Arrival(e) => Arrive(w, e, sha)
                case Completion(h) => Finish(w, h, sha);
      Run(w', steps[1..], sha)
  }

  /** A run with the delete as written. */
  function RunAsWritten(w: World, steps: seq<Step>, sha: Sha256): World
    decreases |steps|
  {
    if steps == [] then w
    else
      var w' := match steps[0]
                case Arrival(e) => Arrive(w, e, sha)
                case Completion(h) => FinishAsWritten(w, h, sha);
      RunAsWritten(w', steps[1..], sha)
  }

  /**
   The table tracks exactly the running deployments: every key holds a
   running handle whose entry has that key, and every running handle is the
   one its key holds. Every launched handle is below the next fresh one, and
   no handle is both running and cancelled.
   */
  predicate Tracked(w: World, sha: Sha256) {
    && (forall h | h in w.running :: h in w.entryOf && h < w.coord.next)
    && (forall h | h in w.canceled :: h in w.entryOf && h < w.coord.next)
    && w.running !! w.canceled
    && (forall k | k in w.coord.deployMap ::
          w.coord.deployMap[k] in w.running && w.coord.deployMap[k] in w.entryOf
          && Hash(w.entryOf[w.coord.deployMap[k]], sha) == k)
    && (forall h | h in w.running && h in w.entryOf ::
          Hash(w.entryOf[h], sha) in w.coord.deployMap && w.coord.deployMap[Hash(w.entryOf[h], sha)] == h)
  }

  /** No two running deployments share a key. */
  predicate AtMostOnePerKey(w: World, sha: Sha256) {
    forall h, h' | h in w.running && h' in w.running && h in w.entryOf && h' in w.entryOf ::
      Hash(w.entryOf[h], sha) == Hash(w.entryOf[h'], sha) ==> h == h'
  }

  /** A tracked world runs at most one deployment per key. */
  lemma TrackedAtMostOnePerKey(w: World, sha: Sha256)
    requires Tracked(w, sha)
    ensures AtMostOnePerKey(w, sha)
  {
  }

  /** Applying `CancelAndAwait(prev)`, then `Launch(h, e)`, then `Respawn(e)`. */
  lemma ApplyThree(w: World, prev: Handle, h: Handle, e: ConfigurationEntry)
    ensures var w' := Apply(w, [CancelAndAwait(prev), Launch(h, e), Respawn(e)]);
            && w'.coord == w.coord
            && w'.running == w.running - {prev} + {h}
            && w'.canceled == w.canceled + {prev}
            && w'.entryOf == w.entryOf[h := e]
  {
    var xs := [CancelAndAwait(prev), Launch(h, e), Respawn(e)];
    var w1 := ApplyEffect(w, CancelAndAwait(prev));
    var w2 := ApplyEffect(w1, Launch(h, e));
    assert xs[1..] == [Launch(h, e), Respawn(e)];
    assert xs[1..][1..] == [Respawn(e)];
    assert Apply(w2, [Respawn(e)]) == w2 by {
      assert [Respawn(e)][1..] == [];
    }
    assert Apply(w1, xs[1..]) == w2;
    assert Apply(w, xs) == w2;
  }

  /** Applying `Launch(h, e)`, then `Respawn(e)`. */
  lemma ApplyTwo(w: World, h: Handle, e: ConfigurationEntry)
    ensures var w' := Apply(w, [Launch(h, e), Respawn(e)]);
            && w'.coord == w.coord
            && w'.running == w.running + {h}
            && w'.canceled == w.canceled
            && w'.entryOf == w.entryOf[h := e]
  {
    var xs := [Launch(h, e), Respawn(e)];
    var w1 := ApplyEffect(w, Launch(h, e));
    assert xs[1..] == [Respawn(e)];
    assert Apply(w1, [Respawn(e)]) == w1 by {
      assert [Respawn(e)][1..] == [];
    }
    assert Apply(w, xs) == w1;
  }

  /** The handle a result cancels: the one its key holds, if any. */
  function Superseded(m: map<GoString, Handle>, key: GoString): set<Handle> {
    if key in m then {m[key]} else {}
  }

  /** The transition a result makes, spelt out. */
  lemma OnResultShape(st: Coordinator, e: ConfigurationEntry, sha: Sha256)
    requires !st.stopped
    ensures var key := Hash(e, sha);
            var t := OnResult(st, e, sha);
            && t.state == Coordinator(st.deployMap[key := st.next], st.next + 1, false)
            && t.effects == (if key in st.deployMap then [CancelAndAwait(st.deployMap[key])] else [])
                            + [Launch(st.next, e), Respawn(e)]
  {
  }

  /**
   What a result does to the deployments: the handle its key held is
   cancelled, and a fresh handle for the entry is running and installed
   under the key.
   */
  lemma ArriveShape(w: World, e: ConfigurationEntry, sha: Sha256)
    requires !w.coord.stopped
    ensures var key := Hash(e, sha);
            var m := w.coord.deployMap;
            var h := w.coord.next;
            var w' := Arrive(w, e, sha);
            && w'.coord == Coordinator(m[key := h], h + 1, false)
            && w'.entryOf == w.entryOf[h := e]
            && w'.running == w.running - Superseded(m, key) + {h}
            && w'.canceled == w.canceled + Superseded(m, key)
  {
    var key := Hash(e, sha);
    var m := w.coord.deployMap;
    var h := w.coord.next;
    var t := OnResult(w.coord, e, sha);
    OnResultShape(w.coord, e, sha);
    var w0 := w.(coord := t.state);
    if key in m {
      assert t.effects == [CancelAndAwait(m[key]), Launch(h, e), Respawn(e)];
      ApplyThree(w0, m[key], h, e);
    } else {
      assert t.effects == [Launch(h, e), Respawn(e)];
      ApplyTwo(w0, h, e);
    }
  }

  /**
   Installing a fresh handle for an entry under its key, and cancelling the
   handle the key held, keeps the table tracking exactly the running
   deployments.
   */
  lemma InstallPreservesTracked(w: World, e: ConfigurationEntry, sha: Sha256)
    requires Tracked(w, sha)
    ensures var key := Hash(e, sha);
            var m := w.coord.deployMap;
            var h := w.coord.next;
            Tracked(World(Coordinator(m[key := h], h + 1, false), w.entryOf[h := e],
                          w.running - Superseded(m, key) + {h}, w.canceled + Superseded(m, key)), sha)
  {
    var key := Hash(e, sha);
    var m := w.coord.deployMap;
    var h := w.coord.next;
    var cancelled := Superseded(m, key);
    var w' := World(Coordinator(m[key := h], h + 1, false), w.entryOf[h := e],
                    w.running - cancelled + {h}, w.canceled + cancelled);
    assert h !in w.running && h !in w.canceled;
    forall k | k in w'.coord.deployMap
      ensures w'.coord.deployMap[k] in w'.running && w'.coord.deployMap[k] in w'.entryOf
              && Hash(w'.entryOf[w'.coord.deployMap[k]], sha) == k
    {
      if k != key {
        assert m[k] in w.running && m[k] != h;
        assert m[k] !in cancelled;
      }
    }
    forall g | g in w'.running && g in w'.entryOf
      ensures Hash(w'.entryOf[g], sha) in w'.coord.deployMap && w'.coord.deployMap[Hash(w'.entryOf[g], sha)] == g
    {
      if g != h {
        assert g in w.running && g !in cancelled;
        assert w'.entryOf[g] == w.entryOf[g];
      }
    }
  }

  /**
   A result keeps the table tracking exactly the running deployments: the
   cancel, if any, goes to a running deployment (so its acknowledgement
   comes), and the new deployment is the only running one under its key.
   */
  lemma ArrivePreservesTracked(w: World, e: ConfigurationEntry, sha: Sha256)
    requires Tracked(w, sha) && !w.coord.stopped
    ensures Tracked(Arrive(w, e, sha), sha) && !Arrive(w, e, sha).coord.stopped
    ensures forall x | x in OnResult(w.coord, e, sha).effects && x.CancelAndAwait? :: x.handle in w.running
  {
    ArriveShape(w, e, sha);
    InstallPreservesTracked(w, e, sha);
    var w' := Arrive(w, e, sha);
    var key := Hash(e, sha);
    var m := w.coord.deployMap;
    var h := w.coord.next;
    assert w' == World(Coordinator(m[key := h], h + 1, false), w.entryOf[h := e],
                       w.running - Superseded(m, key) + {h}, w.canceled + Superseded(m, key));
    OnResultShape(w.coord, e, sha);
  }

  /** A completion under the corrected delete keeps the table tracking exactly the running deployments. */
  lemma FinishPreservesTracked(w: World, h: Handle, sha: Sha256)
    requires Tracked(w, sha)
    ensures Tracked(Finish(w, h, sha), sha)
  {
  }

  /** Every run with the corrected delete keeps the table tracking exactly the running deployments. */
  lemma {:induction false} RunPreservesTracked(w: World, steps: seq<Step>, sha: Sha256)
    requires Tracked(w, sha) && !w.coord.stopped
    ensures Tracked(Run(w, steps, sha), sha) && !Run(w, steps, sha).coord.stopped
    decreases |steps|
  {
    if steps != [] {
      match steps[0]
      case Arrival(e) =>
        ArrivePreservesTracked(w, e, sha);
        RunPreservesTracked(Arrive(w, e, sha), steps[1..], sha);
      case Completion(h) =>
        FinishPreservesTracked(w, h, sha);
        RunPreservesTracked(Finish(w, h, sha), steps[1..], sha);
    }
  }

  /** With the corrected delete, no run ever has two deployments of one key in flight. */
  lemma NeverTwoInFlight(steps: seq<Step>, sha: Sha256)
    ensures AtMostOnePerKey(Run(Start, steps, sha), sha)
  {
    RunPreservesTracked(Start, steps, sha);
    TrackedAtMostOnePerKey(Run(Start, steps, sha), sha);
  }

  /**
   With the corrected delete, shutdown cancels every running deployment:
   none is left running once the request is acknowledged.
   */
  lemma ShutdownStopsEveryDeployment(w: World, order: seq<GoString>, sha: Sha256)
    requires Tracked(w, sha) && !w.coord.stopped && Enumerates(order, w.coord.deployMap)
    ensures Shutdown(w, order).running == {}
  {
    var t := OnShutdown(w.coord, order);
    assert forall i | 0 <= i < |t.effects| :: !t.effects[i].Launch? by {
      assert forall i | 0 < i < |t.effects| - 1 :: t.effects[i] == CancelAndAwait(w.coord.deployMap[order[i - 1]]);
    }
    ApplyCancels(w.(coord := t.state), t.effects);
    var cancelled := set x | x in t.effects && x.CancelAndAwait? :: x.handle;
    assert Shutdown(w, order).running == w.running - cancelled;
    ShutdownCancelsEveryEntry(w.coord, order);
    forall h | h in w.running
      ensures h in cancelled
    {
      var key := Hash(w.entryOf[h], sha);
      assert w.coord.deployMap[key] == h;
      assert CancelAndAwait(h) in t.effects;
    }
  }

  /** Effects only cancel, launch or do nothing to the deployments; a run of them without launches stops what they cancel. */
  lemma {:induction false} ApplyCancels(w: World, xs: seq<Effect>)
    requires forall i | 0 <= i < |xs| :: !xs[i].Launch?
    ensures Apply(w, xs).running == w.running - set x | x in xs && x.CancelAndAwait? :: x.handle
    decreases |xs|
  {
    if xs != [] {
      ApplyCancels(ApplyEffect(w, xs[0]), xs[1..]);
      assert forall x :: x in xs <==> x == xs[0] || x in xs[1..];
    }
  }

  /**
   With the delete as written, a deployment superseded by a newer one of the
   same key deletes the newer one's key when it finishes; the next result for
   that key then launches without cancelling, and two deployments of the key
   are in flight.
   */
  lemma TwoInFlightAsWritten(e: ConfigurationEntry, sha: Sha256)
    ensures var w := RunAsWritten(Start, [Arrival(e), Arrival(e), Completion(0), Arrival(e)], sha);
            && w.running == {1, 2} && 1 in w.entryOf && 2 in w.entryOf && w.entryOf[1] == w.entryOf[2]
            && w.coord.deployMap == map[Hash(e, sha) := 2] && !w.coord.stopped
    ensures !AtMostOnePerKey(RunAsWritten(Start, [Arrival(e), Arrival(e), Completion(0), Arrival(e)], sha), sha)
  {
    var key := Hash(e, sha);
    var w1 := Arrive(Start, e, sha);
    ArriveShape(Start, e, sha);
    assert Superseded(map[], key) == {};
    assert w1.running == {0} && w1.canceled == {} && w1.coord.deployMap == map[key := 0] && w1.coord.next == 1;
    var w2 := Arrive(w1, e, sha);
    ArriveShape(w1, e, sha);
    assert Superseded(map[key := 0], key) == {0};
    assert w2.running == {1} && w2.canceled == {0} && w2.coord.deployMap == map[key := 1] && w2.coord.next == 2;
    assert w2.entryOf[0] == e && w2.entryOf[1] == e;
    var w3 := FinishAsWritten(w2, 0, sha);
    assert w3.coord.deployMap == map[key := 1] - {key};
    assert w3.running == {1} && w3.coord.deployMap == map[] && w3.coord.next == 2;
    var w4 := Arrive(w3, e, sha);
    ArriveShape(w3, e, sha);
    assert w4.running == {1, 2} && w4.entryOf[1] == e && w4.entryOf[2] == e;
    assert RunAsWritten(w3, [Arrival(e)], sha) == w4;
    var tail2: seq<Step> := [Completion(0), Arrival(e)];
    assert tail2[1..] == [Arrival(e)];
    assert RunAsWritten(w2, tail2, sha) == w4;
    var tail1: seq<Step> := [Arrival(e), Completion(0), Arrival(e)];
    assert tail1[1..] == tail2;
    assert RunAsWritten(w1, tail1, sha) == w4;
    var steps: seq<Step> := [Arrival(e), Arrival(e), Completion(0), Arrival(e)];
    assert steps[1..] == tail1;
    assert RunAsWritten(Start, steps, sha) == w4;
  }

  /**
   With the delete as written, shutdown after that run cancels only the
   deployment the table still holds: the other one of the same key is left
   running when the request is acknowledged.
   */
  lemma ShutdownMissesOneAsWritten(e: ConfigurationEntry, sha: Sha256)
    ensures var w := RunAsWritten(Start, [Arrival(e), Arrival(e), Completion(0), Arrival(e)], sha);
            && Enumerates([Hash(e, sha)], w.coord.deployMap)
            && Shutdown(w, [Hash(e, sha)]).running == {1}
  {
    TwoInFlightAsWritten(e, sha);
    var w := RunAsWritten(Start, [Arrival(e), Arrival(e), Completion(0), Arrival(e)], sha);
    var order := [Hash(e, sha)];
    assert Enumerates(order, w.coord.deployMap);
    var t := OnShutdown(w.coord, order);
    assert t.effects == [CloseWatchers, CancelAndAwait(2), Acknowledge];
    ApplyCancels(w.(coord := t.state), t.effects);
    assert (set x | x in t.effects && x.CancelAndAwait? :: x.handle) == {2};
  }
}
