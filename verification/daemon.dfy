/**
 The daemon of main.go: its single-pattern watcher, and the coordinator loop
 that owns `deployMap`, the table from an entry's key to the cancel channel
 of its deployment in flight. The goroutines are taken one transition at a
 time: a transition is a pure function from the coordinator's state to its
 new state and the effects it performs, in order. Channels are named by
 handles, and a fresh handle stands for each `make(chan chan struct{}, 1)`.
 */
module Daemon {
  import opened GoStrings
  import opened Configuration
  import Watch

  /**
   main.go's `watch`: one pattern, the entry's own, and the entry itself as
   the result, with `File` set to the matched path.
   */
  function WatchEntry(data: ConfigurationEntry, trace: seq<Watch.Event>, matches: Watch.Matcher)
    : (r: Watch.Run<ConfigurationEntry>)
    ensures r.Found? ==>
              && 0 < r.consumed <= |trace|
              && trace[r.consumed - 1] == Watch.Closed(r.result.File)
              && matches(data.RegexDef, r.result.File)
              && r.result.(File := data.File) == data
              && forall k | 0 <= k < r.consumed - 1 :: trace[k].Closed? && !matches(data.RegexDef, trace[k].path)
    ensures r.Stopped? ==>
              && 0 < r.consumed <= |trace| && trace[r.consumed - 1] == Watch.Stop
              && forall k | 0 <= k < r.consumed - 1 :: trace[k].Closed? && !matches(data.RegexDef, trace[k].path)
    ensures r.Waiting? <==> forall k | 0 <= k < |trace| :: trace[k].Closed? && !matches(data.RegexDef, trace[k].path)
  {
    if trace == [] then Watch.Waiting
    else
      match trace[0]
      case Stop => Watch.Stopped(1)
      case Closed(path) =>
        if matches(data.RegexDef, path) then
          Watch.Found(data.(File := path), 1)
        else
          match WatchEntry(data, trace[1..], matches)
          case Found(entry, n) => Watch.Found(entry, n + 1)
          case Stopped(n) => Watch.Stopped(n + 1)
          case Waiting => Watch.Waiting
  }

  /** A run of the general watcher, with its result turned into `data` carrying the matched file. */
  function AsEntryRun(data: ConfigurationEntry, r: Watch.Run<Watch.WatchResult>): Watch.Run<ConfigurationEntry> {
    match r
    case Found(res, n) => Watch.Found(data.(File := res.File), n)
    case Stopped(n) => Watch.Stopped(n)
    case Waiting => Watch.Waiting
  }

  /**
   The single-pattern watcher is the general watcher of watch.go given the
   one-element list of the entry's pattern: same events consumed, same
   matched file, same way of ending.
   */
  lemma {:induction false} WatchEntryIsWatchFolder(data: ConfigurationEntry, trace: seq<Watch.Event>,
                                                   matches: Watch.Matcher)
    ensures WatchEntry(data, trace, matches) == AsEntryRun(data, Watch.WatchFolder([data.RegexDef], trace, matches))
  {
    if trace != [] && trace[0].Closed? {
      var path := trace[0].path;
      assert Watch.NoneMatches([data.RegexDef], path, matches) <==> !matches(data.RegexDef, path) by {
        assert [data.RegexDef][0] == data.RegexDef;
      }
      WatchEntryIsWatchFolder(data, trace[1..], matches);
    }
  }

  /** The watcher sends at most one entry: once it has one (or is stopped), later events change nothing. */
  lemma WatchEntryEndsAtFirstResult(data: ConfigurationEntry, trace: seq<Watch.Event>, more: seq<Watch.Event>,
                                    matches: Watch.Matcher)
    requires !WatchEntry(data, trace, matches).Waiting?
    ensures WatchEntry(data, trace + more, matches) == WatchEntry(data, trace, matches)
  {
    WatchEntryIsWatchFolder(data, trace, matches);
    WatchEntryIsWatchFolder(data, trace + more, matches);
    Watch.RunEndsAtFirstResult([data.RegexDef], trace, more, matches);
  }

  /** A stop signal before any matched event ends the run with no entry. */
  lemma WatchEntryStopFirst(data: ConfigurationEntry, rest: seq<Watch.Event>, matches: Watch.Matcher)
    ensures WatchEntry(data, [Watch.Stop] + rest, matches) == Watch.Stopped(1)
  {
  }

  /** The name of a deployment's cancel channel. */
  type Handle = nat

  /**
   The coordinator's state: `deployMap`, the next fresh handle, and whether
   the loop has returned after a shutdown.
   */
  datatype Coordinator = Coordinator(deployMap: map<GoString, Handle>, next: Handle, stopped: bool)

  /** The coordinator before any result: an empty table. */
  const Initial := Coordinator(map[], 0, false)

  /** What a transition does besides changing the table, in the order it does it. */
  datatype Effect =
    | CancelAndAwait(handle: Handle)                  // send a reply channel on the handle, then wait for the reply
    | Launch(handle: Handle, entry: ConfigurationEntry) // start `deployWar` for the entry with that cancel channel
    | Respawn(entry: ConfigurationEntry)               // start a new watcher for the entry
    | CloseWatchers                                    // close the stop channel every watcher listens to
    | Acknowledge                                      // answer the shutdown request

  datatype Transition = Transition(state: Coordinator, effects: seq<Effect>)

  /**
   A result arrives (main.go:142-169): a deployment in flight under the
   entry's key is cancelled and its acknowledgement awaited first; then a new
   deployment is launched on a fresh handle, installed under the key, and one
   watcher is respawned for the entry. Other keys keep their handles. A
   coordinator that has returned receives nothing.
   */
  function OnResult(st: Coordinator, e: ConfigurationEntry, sha: Sha256): (r: Transition)
    ensures st.stopped ==> r == Transition(st, [])
    ensures !st.stopped ==>
              var key := Hash(e, sha);
              && !r.state.stopped
              && r.state.deployMap.Keys == st.deployMap.Keys + {key}
              && r.state.deployMap[key] == st.next < r.state.next
              && (forall k | k in st.deployMap && k != key :: r.state.deployMap[k] == st.deployMap[k])
              && |r.effects| == (if key in st.deployMap then 3 else 2)
              && (key in st.deployMap ==> r.effects[0] == CancelAndAwait(st.deployMap[key]))
              && r.effects[|r.effects| - 2] == Launch(st.next, e)
              && r.effects[|r.effects| - 1] == Respawn(e)
  {
    if st.stopped then Transition(st, [])
    else
      var key := Hash(e, sha);
      var cancel := if key in st.deployMap then [CancelAndAwait(st.deployMap[key])] else [];
      var doneCh := st.next;
      Transition(Coordinator(st.deployMap[key := doneCh], doneCh + 1, false),
                 cancel + [Launch(doneCh, e), Respawn(e)])
  }

  /**
   A deployment's goroutine finishes, as written (main.go:161): the key of its
   entry is deleted whatever handle it now holds. No other key changes.
   */
  function OnDeployDoneAsWritten(st: Coordinator, e: ConfigurationEntry, sha: Sha256): (r: Coordinator)
    ensures Hash(e, sha) !in r.deployMap
    ensures forall k | k != Hash(e, sha) :: (k in r.deployMap <==> k in st.deployMap)
    ensures forall k | k in r.deployMap :: r.deployMap[k] == st.deployMap[k]
    ensures r.next == st.next && r.stopped == st.stopped
  {
    st.(deployMap := st.deployMap - {Hash(e, sha)})
  }

  /**
   A deployment's goroutine finishes, corrected: the key is deleted only while
   it still holds this deployment's own handle, so a newer deployment under
   the same key stays tracked.
   */
  function OnDeployDone(st: Coordinator, e: ConfigurationEntry, h: Handle, sha: Sha256): (r: Coordinator)
    ensures Hash(e, sha) in st.deployMap && st.deployMap[Hash(e, sha)] == h ==>
              r == OnDeployDoneAsWritten(st, e, sha)
    ensures !(Hash(e, sha) in st.deployMap && st.deployMap[Hash(e, sha)] == h) ==> r == st
  {
    var key := Hash(e, sha);
    if key in st.deployMap && st.deployMap[key] == h then st.(deployMap := st.deployMap - {key}) else st
  }

  /** The cancel effects for the table's keys, in the order given. */
  function CancelAll(m: map<GoString, Handle>, order: seq<GoString>): (r: seq<Effect>)
    requires forall i | 0 <= i < |order| :: order[i] in m
    ensures |r| == |order|
    ensures forall i | 0 <= i < |order| :: r[i] == CancelAndAwait(m[order[i]])
  {
    if order == [] then [] else [CancelAndAwait(m[order[0]])] + CancelAll(m, order[1..])
  }

  /** `order` lists every key of the table exactly once: one iteration of `range deployMap`. */
  predicate Enumerates(order: seq<GoString>, m: map<GoString, Handle>) {
    && (forall i | 0 <= i < |order| :: order[i] in m)
    && (forall k | k in m :: k in order)
    && (forall i, j | 0 <= i < j < |order| :: order[i] != order[j])
  }

  /**
   A shutdown request arrives (main.go:171-184): every watcher is told to
   stop, every deployment in the table is cancelled and awaited, in the order
   the map iteration yields, and only then is the request acknowledged; the
   loop returns, leaving the table as it is. A coordinator that has already
   returned receives nothing.
   */
  function OnShutdown(st: Coordinator, order: seq<GoString>): (r: Transition)
    requires Enumerates(order, st.deployMap)
    ensures st.stopped ==> r == Transition(st, [])
    ensures !st.stopped ==>
              && r.state == st.(stopped := true)
              && |r.effects| == |order| + 2
              && r.effects[0] == CloseWatchers
              && r.effects[|r.effects| - 1] == Acknowledge
              && (forall i | 0 <= i < |order| :: r.effects[i + 1] == CancelAndAwait(st.deployMap[order[i]]))
  {
    if st.stopped then Transition(st, [])
    else Transition(st.(stopped := true), [CloseWatchers] + CancelAll(st.deployMap, order) + [Acknowledge])
  }

  /** Shutdown cancels the deployment of every key in the table, and cancels nothing else. */
  lemma ShutdownCancelsEveryEntry(st: Coordinator, order: seq<GoString>)
    requires !st.stopped && Enumerates(order, st.deployMap)
    ensures forall k | k in st.deployMap :: CancelAndAwait(st.deployMap[k]) in OnShutdown(st, order).effects
    ensures forall x | x in OnShutdown(st, order).effects && x.CancelAndAwait? :: x.handle in st.deployMap.Values
  {
    var effects := OnShutdown(st, order).effects;
    forall k | k in st.deployMap
      ensures CancelAndAwait(st.deployMap[k]) in effects
    {
      var i :| 0 <= i < |order| && order[i] == k;
      assert effects[i + 1] == CancelAndAwait(st.deployMap[k]);
    }
    forall x | x in effects && x.CancelAndAwait?
      ensures x.handle in st.deployMap.Values
    {
      var j :| 0 <= j < |effects| && effects[j] == x;
      assert 0 < j < |effects| - 1;
      assert x == CancelAndAwait(st.deployMap[order[j - 1]]);
    }
  }
}
