/**
 The folder watcher of watch.go, reduced to its selection rule. The
 subscription to close-after-write events is not modelled: the events the
 watcher would receive, and the stop signal, arrive as an ordered trace.
 Regular-expression matching is a parameter.
 */
module Watch {
  import opened Results
  import opened GoStrings

  /** `Regexp.MatchString`: whether the pattern matches the path. Any predicate stands for it. */
  type Matcher = (GoString, GoString) -> bool

  /** What the watcher can receive: a file closed after writing, or the stop signal on `done`. */
  datatype Event = Closed(path: GoString) | Stop

  /** `watchResult`: the detected artifact and the pattern that matched it. */
  datatype WatchResult = WatchResult(File: GoString, Regex: GoString)

  /**
   How a run of the watcher over a trace ends: with a result sent after
   `consumed` events, stopped by the stop signal at event `consumed`, or still
   waiting when the trace runs out.
   */
  datatype Run<T> = Found(result: T, consumed: nat) | Stopped(consumed: nat) | Waiting

  /** No pattern of `rs` matches `path`. */
  predicate NoneMatches(rs: seq<GoString>, path: GoString, matches: Matcher) {
    forall i | 0 <= i < |rs| :: !matches(rs[i], path)
  }

  /** `e` is a file event that no pattern of `rs` matches. */
  predicate Ignored(rs: seq<GoString>, e: Event, matches: Matcher) {
    e.Closed? && NoneMatches(rs, e.path, matches)
  }

  /** Every event of `t` is ignored. */
  predicate AllIgnored(rs: seq<GoString>, t: seq<Event>, matches: Matcher) {
    forall k | 0 <= k < |t| :: Ignored(rs, t[k], matches)
  }

  /** The position of the first pattern of `rs` that matches `path`, or -1. */
  function FirstMatchIndex(rs: seq<GoString>, path: GoString, matches: Matcher): (i: int)
    ensures -1 <= i < |rs|
    ensures i == -1 <==> NoneMatches(rs, path, matches)
    ensures 0 <= i ==> matches(rs[i], path) && NoneMatches(rs[..i], path, matches)
  {
    if rs == [] then -1
    else if matches(rs[0], path) then 0
    else
      var i := FirstMatchIndex(rs[1..], path, matches);
      assert forall j | 0 <= j < |rs| - 1 :: rs[1..][j] == rs[j + 1];
      assert 0 <= i ==> forall j | 0 <= j < i :: rs[1..][..i][j] == rs[..i + 1][j + 1];
      if i == -1 then -1 else i + 1
  }

  /**
   The inner `for _, r := range rs` loop: the first pattern in list order that
   matches `path`, or none when no pattern does.
   */
  function FirstMatching(rs: seq<GoString>, path: GoString, matches: Matcher): (r: Option<GoString>)
    ensures r.None? <==> NoneMatches(rs, path, matches)
    ensures r.Some? ==> exists i | 0 <= i < |rs| :: rs[i] == r.value && matches(rs[i], path)
                                                && NoneMatches(rs[..i], path, matches)
  {
    var i := FirstMatchIndex(rs, path, matches);
    if i < 0 then None else Some(rs[i])
  }

  /** The pattern chosen for a path matches it, and no pattern before it in the list does. */
  lemma FirstMatchingIsFirst(rs: seq<GoString>, path: GoString, matches: Matcher, i: nat)
    requires i < |rs| && matches(rs[i], path)
    ensures FirstMatching(rs, path, matches).Some?
    ensures FirstMatching(rs, path, matches).value in rs[..i + 1]
  {
    var r := FirstMatching(rs, path, matches);
    var j :| 0 <= j < |rs| && rs[j] == r.value && matches(rs[j], path) && NoneMatches(rs[..j], path, matches);
    assert rs[..i + 1][j] == rs[j];
  }

  /**
   The watcher's loop over a trace: an ignored event is skipped, the first
   matched event is sent as the result and ends the run, and the stop signal
   ends it without a result.
   */
  function WatchFolder(rs: seq<GoString>, trace: seq<Event>, matches: Matcher): (r: Run<WatchResult>)
    ensures r.Found? ==>
              && 0 < r.consumed <= |trace|
              && trace[r.consumed - 1] == Closed(r.result.File)
              && FirstMatching(rs, r.result.File, matches) == Some(r.result.Regex)
              && r.result.Regex in rs && matches(r.result.Regex, r.result.File)
              && AllIgnored(rs, trace[..r.consumed - 1], matches)
    ensures r.Stopped? ==>
              && 0 < r.consumed <= |trace|
              && trace[r.consumed - 1] == Stop
              && AllIgnored(rs, trace[..r.consumed - 1], matches)
    ensures r.Waiting? <==> AllIgnored(rs, trace, matches)
  {
    if trace == [] then Waiting
    else
      match trace[0]
      case Stop =>
        Stopped(1)
      case Closed(path) =>
        match FirstMatching(rs, path, matches)
        case Some(regex) =>
          Found(WatchResult(path, regex), 1)
        case None =>
          var rest := WatchFolder(rs, trace[1..], matches);
          assert forall k | 1 <= k < |trace| :: trace[k] == trace[1..][k - 1];
          match rest
          case Found(res, n) =>
            assert forall k | 1 <= k < n :: trace[..n][k] == trace[1..][..n - 1][k - 1];
            Found(res, n + 1)
          case Stopped(n) =>
            assert forall k | 1 <= k < n :: trace[..n][k] == trace[1..][..n - 1][k - 1];
            Stopped(n + 1)
          case Waiting =>
            Waiting
  }

  /** Reference definition: the number of leading events of `t` that the watcher ignores. */
  function IgnoredPrefix(rs: seq<GoString>, t: seq<Event>, matches: Matcher): (n: nat)
    ensures n <= |t|
  {
    if t != [] && Ignored(rs, t[0], matches) then 1 + IgnoredPrefix(rs, t[1..], matches) else 0
  }

  /**
   The run is decided by the first event the watcher does not ignore: a file
   event there is the result, paired with its first matching pattern; a stop
   signal there ends the run empty-handed.
   */
  lemma {:induction false} WatchFolderDecidedByFirstUnignored(rs: seq<GoString>, trace: seq<Event>, matches: Matcher)
    ensures var n := IgnoredPrefix(rs, trace, matches);
            && (n == |trace| ==> WatchFolder(rs, trace, matches) == Waiting)
            && (n < |trace| && trace[n] == Stop ==> WatchFolder(rs, trace, matches) == Stopped(n + 1))
            && (n < |trace| && trace[n].Closed? ==>
                  var regex := FirstMatching(rs, trace[n].path, matches);
                  regex.Some? && WatchFolder(rs, trace, matches) == Found(WatchResult(trace[n].path, regex.value), n + 1))
  {
    if trace != [] && Ignored(rs, trace[0], matches) {
      WatchFolderDecidedByFirstUnignored(rs, trace[1..], matches);
    }
  }

  /** An event no pattern matches is skipped: the watcher carries on with the rest of the trace. */
  lemma SkipIgnored(rs: seq<GoString>, path: GoString, rest: seq<Event>, matches: Matcher)
    requires NoneMatches(rs, path, matches)
    ensures WatchFolder(rs, [Closed(path)] + rest, matches)
            == match WatchFolder(rs, rest, matches)
               case Found(res, n) => Found(res, n + 1)
               case Stopped(n) => Stopped(n + 1)
               case Waiting => Waiting
  {
    assert ([Closed(path)] + rest)[1..] == rest;
  }

  /** A stop signal before any matched event ends the run with no result. */
  lemma {:induction false} StopBeforeMatch(rs: seq<GoString>, ignored: seq<Event>, rest: seq<Event>,
                                           matches: Matcher)
    requires AllIgnored(rs, ignored, matches)
    ensures WatchFolder(rs, ignored + [Stop] + rest, matches) == Stopped(|ignored| + 1)
  {
    var t := ignored + [Stop] + rest;
    if ignored == [] {
      assert t[0] == Stop;
    } else {
      assert t[0] == ignored[0];
      assert t[1..] == ignored[1..] + [Stop] + rest;
      assert AllIgnored(rs, ignored[1..], matches) by {
        assert forall k | 0 <= k < |ignored| - 1 :: ignored[1..][k] == ignored[k + 1];
      }
      StopBeforeMatch(rs, ignored[1..], rest, matches);
    }
  }

  /**
   The watcher sends at most one result and returns right after it (or after
   the stop signal): events later in the trace make no difference.
   */
  lemma {:induction false} RunEndsAtFirstResult(rs: seq<GoString>, trace: seq<Event>, more: seq<Event>,
                                                matches: Matcher)
    requires !WatchFolder(rs, trace, matches).Waiting?
    ensures WatchFolder(rs, trace + more, matches) == WatchFolder(rs, trace, matches)
  {
    assert trace != [];
    assert (trace + more)[0] == trace[0];
    assert (trace + more)[1..] == trace[1..] + more;
    if trace[0].Closed? && FirstMatching(rs, trace[0].path, matches).None? {
      RunEndsAtFirstResult(rs, trace[1..], more, matches);
    }
  }
}
