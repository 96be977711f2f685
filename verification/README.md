# deployer, modelled in Dafny

deployer is a small Go daemon. It watches folders for `.war` artifacts that
finish being written. When a file matches one of the patterns configured for
its folder, the daemon uploads it to a Tomcat manager with an HTTP Basic
authenticated `PUT`. An upload is keyed by the Tomcat address, the user
name and the artifact's path. A newer artifact written to the same path for
the same server and user cancels the upload in flight under that key before
its own upload starts. On Ctrl-C the daemon stops its watchers, then cancels
and awaits each upload its table still holds, then exits. Because of the
delete at main.go:161, that table can lose track of an upload that is still
running (see "## Findings").

This project models the daemon's core as pure Dafny functions and proves
properties about them.

- `gostrings.dfy`: Go strings as byte sequences (`GoStrings`), plus `Option`
  and `Result` (`Results`). It also models `strings.Index`,
  `strings.LastIndex` and Go's `path.Base`.
- `hex.dfy`: `hex.EncodeToString` and its inverse.
- `base64.dfy`: standard base 64 with padding (section 4 of RFC 4648), as
  `base64.StdEncoding.EncodeToString` writes it. It comes with a strict
  decoder, the round trip, the padding rule, and test vectors from section 10
  of RFC 4648.
- `configuration.dfy`: the configuration entry, its identity key `Hash`,
  `mapFolderToRegex`, `getConfigurationEntry` and `getRegex`. A compiled
  regular expression is represented by its source text.
- `deploy.dfy`: `basicAuth`, the deploy name, the manager URL, the request,
  and the outcome of the final `select` of `deployWar`.
  - The artifact's bytes are an input. `None` stands for a failed read.
  - Which `select` case wins is also an input.
- `watch.dfy`: the folder watcher of `watch.go`, run over an ordered trace of
  close-after-write events and the stop signal.
- `daemon.dfy`: main.go's single-pattern watcher and the coordinator loop.
  - The loop owns `deployMap`, which maps an entry's key to the cancel
    channel of its deployment.
  - The loop's three cases are transitions: a result arrives, a deployment
    finishes, shutdown.
  - Each transition yields the new state and the effects it performs, in
    order.
  - Channels are named by handles, and each `make` gets a fresh handle.
- `inflight.dfy`: the coordinator together with the deployments it has
  launched. A deployment's completion is one atomic step there. It shows
  that the delete as written at main.go:161 lets two deployments of one key
  be in flight at once. It also proves that, with completion atomic, the
  corrected delete keeps at most one deployment per key and lets shutdown
  stop all of them.

main.go contains its own copies of `basicAuth` (main.go:33-36) and `deployWar`
(main.go:38-89). They are identical, character for character, to
deploy.go:16-19 and deploy.go:21-72. Each is modelled once, in the `Deploy`
module, and the rows below cite the deploy.go lines.

Three consequences of the code that are easy to miss:

- **The deploy name.** It is everything before the first `.` of the
  artifact's basename (deploy.go:31). So `app.1.war` deploys as `app`, and a
  basename without a dot panics.
- **The identity key.** It hashes the address, the user and the artifact
  path (configuration.go:21). So artifacts at different paths never
  supersede each other, even in the same folder for the same server.
- **The pattern lookup.** `getConfigurationEntry` returns the first entry
  whose pattern text is `r.String()` (configuration.go:46-49). So for a
  pattern shared by entries of two folders, it returns the first folder's
  entry. No code in main.go or watch.go calls it: main.go's watcher returns
  its own entry (main.go:109-110), and the caller of watch.go's `watch` is
  not part of this model.

## Model

| member | source | states |
|---|---|---|
| GoStrings.Index | deploy.go:31 | `strings.Index` for one byte: the first position of the byte, and -1 if and only if it does not occur |
| GoStrings.LastIndex | deploy.go:30 | `strings.LastIndex` for one byte, as `path.Base` uses it: the last position of the byte, and -1 if and only if it does not occur |
| GoStrings.Base | deploy.go:30 | `path.Base`: the last element after trailing slashes are dropped, "." for the empty path, and "/" if and only if the path is non-empty and only slashes; never empty |
| GoStrings.BaseOfJoin | deploy.go:30 | the base of `dir/name` is `name` for a non-empty element without slashes |
| GoStrings.BaseIdempotent | deploy.go:30 | taking the base twice gives the same as once |
| Hex.Encode | configuration.go:24 | two lower-case hex digits per byte |
| Hex.DecodeEncode | configuration.go:24 | decoding the hex text gives back the bytes |
| Hex.EncodeInjective | configuration.go:24 | two byte strings have the same hex text if and only if they are equal |
| Configuration.Hash | configuration.go:20-25 | the key is 64 lower-case hex digits that decode to the SHA-256 digest of address, user name and file joined with no separator |
| Configuration.HashEqualIff | configuration.go:20-25 | two entries share a key if and only if the digests of their joined fields are equal |
| Configuration.HashIgnoresOtherFields | configuration.go:21 | password, folder, pattern and application name do not affect the key |
| Configuration.HashSeparatorCollision | configuration.go:21 | address "ab" with user "c" and address "a" with user "bc" get the same key |
| Configuration.FolderPatternsSnoc | configuration.go:36-40 | appending an entry extends the pattern list of its own folder and of no other |
| Configuration.AppendGroups | configuration.go:37-39 | one iteration of the loop appends the entry's pattern to its own folder's list and keeps every folder's list equal to its entries' patterns in order |
| Configuration.MapFolderToRegex | configuration.go:34-43 | the keys are exactly the configured folders, and each folder lists the patterns of exactly its own entries, in configuration order |
| Configuration.GroupSizesSumToEntryCount | configuration.go:34-43 | the lengths of the folder lists add up to the number of entries |
| Configuration.GroupingCountsEntries | configuration.go:34-43 | over any distinct folders, the lists hold one pattern for each entry of those folders |
| Configuration.GetConfigurationEntry | configuration.go:45-53 | returns the first entry whose pattern equals the given one, or the zero entry when no entry has it |
| Configuration.GetRegex | configuration.go:55-62 | a folder's patterns in configuration order; empty (nil) for a folder that is not configured |
| Configuration.GroupedPatternResolves | configuration.go:45-62 | every pattern listed for a folder looks up an entry that carries that pattern |
| Configuration.SharedPatternResolvesToFirst | configuration.go:45-53 | a pattern shared by entries of two folders is listed under both folders, but the lookup returns the first folder's entry |
| Base64.Encode | deploy.go:18 | four characters for each started group of three bytes; the round trip, uniqueness and padding are the rows below |
| Base64.Char | deploy.go:18 | a 6-bit value is written as a character of the standard alphabet |
| Base64.Value | deploy.go:18 | a byte has a 6-bit value if and only if it is in the alphabet |
| Base64.DecodeEncode | deploy.go:18 | decoding the encoding gives back the bytes |
| Base64.EncodeInjective | deploy.go:18 | two byte strings have the same encoding if and only if they are equal |
| Base64.EncodeDecode | deploy.go:18 | a text the decoder accepts is exactly the encoding of what it decodes to, so each byte string has one encoding |
| Base64.DecodeIff | deploy.go:18 | a text decodes to `s` if and only if it is the encoding of `s` |
| Base64.EncodePadding | deploy.go:18 | the encoding ends in (3 - n mod 3) mod 3 `=` characters and has no other padding |
| Base64.VectorF | deploy.go:18 | "f" encodes as "Zg==" (section 10 of RFC 4648) |
| Base64.VectorFo | deploy.go:18 | "fo" encodes as "Zm8=" (section 10 of RFC 4648) |
| Base64.VectorFoo | deploy.go:18 | "foo" encodes as "Zm9v" (section 10 of RFC 4648) |
| Base64.VectorFoobar | deploy.go:18 | "foobar" encodes as "Zm9vYmFy" (section 10 of RFC 4648) |
| Deploy.BasicAuth | deploy.go:16-19 | decodes to `username ":" password`; four characters for each started group of three bytes; padding only at the end |
| Deploy.BasicAuthInjective | deploy.go:16-19 | two credential pairs give the same text if and only if their `user:pass` strings are equal |
| Deploy.BasicAuthUnique | deploy.go:16-19 | a text decodes to `username ":" password` if and only if it is the `basicAuth` text |
| Deploy.BasicAuthExample | deploy.go:16-19 | user "admin" with password "secret" sends "YWRtaW46c2VjcmV0" |
| Deploy.BasicAuthColonAmbiguity | deploy.go:17 | a colon in the user name makes different credentials send the same text |
| Deploy.AuthorizationHeader | deploy.go:52 | the header value is "Basic " followed by text that decodes to the credentials |
| Deploy.AuthorizationHeaderIsBasicAuth | deploy.go:52 | the header value is exactly "Basic " followed by `basicAuth(user, pass)` |
| Deploy.AppName | deploy.go:29-32 | a configured name is used as is; otherwise a name is derived if and only if the basename contains a dot, and it is the part before the first dot; otherwise the slice panics |
| Deploy.AppNameOfJoin | deploy.go:29-32 | `dir/name` with no configured name deploys under the part of `name` before its first dot |
| Deploy.AppNameConfigured | deploy.go:29 | a configured name "myapp" is used as is, whatever the artifact |
| Deploy.AppNameExample | deploy.go:29-32 | "d/app.1.war" deploys as "app" |
| Deploy.AppNameEdgeCases | deploy.go:29-32 | the empty path gives the empty name (its basename is "."); "/" panics |
| Deploy.DeployUrl | deploy.go:33 | the URL starts with the address, is 39 bytes longer than address plus name, and parses back to the name |
| Deploy.DeployUrlInjective | deploy.go:33 | on one server, two names give the same URL if and only if they are equal |
| Deploy.NewRequest | deploy.go:44-52 | a `PUT` to the manager URL for the name, with a "Basic " header that decodes to the credentials and the artifact as body |
| Deploy.SelectOutcomeAsWritten | deploy.go:60-71 | as written, the `select` panics exactly when a transport error wins the race |
| Deploy.TransportErrorPanics | deploy.go:56-62 | a nil response that wins the race is dereferenced |
| Deploy.SelectOutcome | deploy.go:60-71 | success if and only if the status is 200; cancelled if and only if the cancel request wins; a failure with the status otherwise; agrees with the code wherever the code does not panic |
| Deploy.DeployWar | deploy.go:21-72 | a name that cannot be derived is fatal before the read; an unreadable artifact is fatal; otherwise the request is sent, the outcome follows the race, and a cancel is acknowledged if and only if it wins |
| Deploy.DeployWarAsWritten | deploy.go:21-72 | name and read failures are fatal first, exactly as in the corrected deployer; otherwise a transport error that wins the race panics, and every other race agrees with the corrected deployer |
| Watch.FirstMatchIndex | watch.go:28-34 | the index of the first pattern that matches, or -1 if and only if none matches |
| Watch.FirstMatching | watch.go:28-34 | no pattern is chosen if and only if none matches; a chosen pattern is in the list and matches |
| Watch.FirstMatchingIsFirst | watch.go:28-34 | the chosen pattern comes no later than any matching pattern |
| Watch.WatchFolder | watch.go:25-39 | a result is the first event not ignored, with its first matching pattern, and every event before it was ignored; a stop before any match ends with no result; the run keeps waiting if and only if every event was ignored |
| Watch.WatchFolderDecidedByFirstUnignored | watch.go:25-39 | the first event that is not ignored decides the run |
| Watch.SkipIgnored | watch.go:27-34 | an event no pattern matches is skipped |
| Watch.StopBeforeMatch | watch.go:35-36 | a stop after ignored events ends the run with no result |
| Watch.RunEndsAtFirstResult | watch.go:31-32 | once a result is sent (or the stop is seen), later events change nothing: at most one result |
| Daemon.WatchEntry | main.go:92-118 | a result is the first event matching the entry's own pattern, and it is the entry with only `File` replaced by the path; a stop ends the run with no result; every event before the result or the stop went unmatched; the run keeps waiting if and only if no event matched and none was a stop |
| Daemon.WatchEntryIsWatchFolder | main.go:92-118 | the single-pattern watcher is watch.go's watcher given the one-element list of the entry's pattern |
| Daemon.WatchEntryStopFirst | main.go:113-114 | a stop before any file event ends the run with no result |
| Daemon.WatchEntryEndsAtFirstResult | main.go:109-111 | main.go's watcher also sends at most one result |
| Daemon.OnResult | main.go:142-169 | the handle under the key is cancelled and awaited first; then a fresh handle is launched, installed under the key and followed by exactly one respawn; other keys keep their handles |
| Daemon.OnDeployDoneAsWritten | main.go:154-161 | when a deployment finishes, its entry's key is deleted whatever handle it holds; other keys are unchanged |
| Daemon.OnDeployDone | main.go:154-161 | the corrected delete removes the key only while it still holds the finishing handle, and otherwise changes nothing |
| Daemon.OnShutdown | main.go:171-184 | watchers are closed first; then every table entry is cancelled and awaited, in map order; the acknowledgement comes last; the loop stops |
| Daemon.ShutdownCancelsEveryEntry | main.go:177-182 | shutdown cancels the handle of every key and nothing else |
| InFlight.ArriveShape | main.go:142-169 | a result cancels the handle its key held and runs a fresh handle for the entry under the key |
| InFlight.ArrivePreservesTracked | main.go:142-169 | in the sequential model, where completion is atomic: a result keeps every running deployment held by its own key, and a cancel goes only to a running deployment, so its acknowledgement arrives |
| InFlight.InstallPreservesTracked | main.go:145-163 | cancel-then-install keeps the table tracking exactly the running deployments |
| InFlight.FinishPreservesTracked | main.go:154-161 | with the corrected delete, a finishing deployment keeps the table tracking exactly the running deployments |
| InFlight.RunPreservesTracked | main.go:139-187 | with the corrected delete, every sequence of results and completions keeps that invariant |
| InFlight.TrackedAtMostOnePerKey | main.go:142-163 | a table that tracks the running deployments means at most one running deployment per key |
| InFlight.NeverTwoInFlight | main.go:139-187 | with the corrected delete, no run ever has two deployments of one key running |
| InFlight.TwoInFlightAsWritten | main.go:161 | as written: result, result, completion of the superseded one, result leaves two deployments of one key running |
| InFlight.ShutdownStopsEveryDeployment | main.go:171-184 | in the sequential model, with the corrected delete, no deployment is still running when shutdown is acknowledged |
| InFlight.ShutdownMissesOneAsWritten | main.go:171-184 | as written, shutdown after that run leaves one deployment of the key running |

## Left out

- Goroutines, channels and scheduling are not modelled as concurrency.
  - Each coordinator case is one atomic transition.
  - A deployment's completion is one atomic step: `deployWar` returns and the
    key is deleted together.
  - Which event comes next is the caller's choice.
- InFlight.ArrivePreservesTracked: holds only because completion is atomic.
  In Go, a deployment whose response wins leaves `deployWar`
  (main.go:78-83) before its goroutine runs the delete (main.go:161).
  - If a result for the same key arrives in that window, the coordinator
    still finds the key (main.go:145).
  - Its send at main.go:148 lands in the one-slot buffer made at main.go:153.
  - Nobody receives it, so `<-responseCh` (main.go:149) waits forever.
  - The shutdown loop (main.go:180-181) can hang the same way.
  - The model does not show this hang. Nor does it show the data race of
    that goroutine's delete against the coordinator's reads and writes of
    `deployMap`.
- InFlight.ShutdownStopsEveryDeployment: holds in the same sequential model.
  The hang above can keep shutdown from being acknowledged at all.
- The file-system subscription (`notify.Watch`, `notify.Stop`) is left out. Its
  events and the stop signal are an input trace: the events actually
  delivered to the watcher.
  - The comments at watch.go:17-18 and main.go:94-95 say the channel is
    buffered so that no event is dropped. But `make(chan notify.EventInfo)`
    at watch.go:19 and main.go:96 makes an unbuffered channel.
  - `notify` drops an event the watcher is not ready to receive. Such dropped
    events are not modelled; they simply never appear in the trace.
- Regular expressions are left out. `regexp.MustCompile` and `Regexp.String`
  are taken as inverse identities, and matching is a parameter. A pattern
  that does not compile, which panics in Go, is not modelled.
- SHA-256 is left out and is a parameter. Any function to 32-byte digests
  stands for it.
- The HTTP client, the transport, the cancellation context and
  `http.NewRequestWithContext` are left out. Its failure (a URL that does not
  parse), which is fatal in Go, is not modelled. The response or transport
  error, and the winner of the `select`, are inputs.
- Reading the artifact is left out. Its bytes, or the read failure that ends
  in `log.Fatal`, are an input.
- Logging, flag parsing, the JSON configuration file and the signal handling
  in `main` are left out.
- The order of Go's map iteration at shutdown is a parameter. Any order that
  lists every key once may be given.
- Daemon.WatchEntry: main.go:102 compiles `data.Regex`, a field that
  `ConfigurationEntry` does not have, so that line would not compile as
  written. The model uses `RegexDef`, the entry's pattern field.
- Watch.WatchFolder: as in watch.go, the matched pattern is reported by its
  text, not as a compiled object.

## Findings

| source | as written | input that shows it | evidently intended | confidence | as-written member | corrected member |
|---|---|---|---|---|---|---|
| deploy.go:56-62 | the error from `client.Do` is discarded; when the transport fails, a nil response is sent on the channel and `r.StatusCode` dereferences it (main.go:73-79 is identical) | a transport error that wins the race: `ResponseFirst(TransportError)` | report the deployment as failed | not executed | Deploy.TransportErrorPanics | Deploy.SelectOutcome |
| main.go:161 | a finishing deployment deletes its entry's key whatever handle the key now holds | for one entry: result, result, completion of the first deployment, result; the last result finds no key and launches without cancelling | delete the key only while it still holds the finishing deployment's handle, so at most one deployment per key is in flight | not executed | InFlight.TwoInFlightAsWritten | InFlight.NeverTwoInFlight |
